// lfs_dir_splittingcompact: cutting a log that has outgrown its block into a
// chain of pairs, each compacted on its own.

module LfsSplit {
  import opened Options
  import opened LfsLog
  import opened LfsTraverse
  import opened LfsCompact
  import opened LfsMeaning
  import LfsChain

  // One pair of the chain: the ids it takes over and the log it is given
  datatype Part = Part(begin: nat, end: nat, log: seq<Entry>)

  // Geometry of a metadata block
  datatype Geometry = Geometry(metadataMax: nat, progSize: nat)

  predicate ValidGeometry(g: Geometry) {
    g.metadataMax >= 128 && g.progSize > 0
  }

  function AlignUp(a: nat, alignment: nat): nat
    requires alignment > 0
  {
    (a + alignment - 1) / alignment * alignment
  }

  // ---- Sizes --------------------------------------------------------------

  // lfs_dir_traverse with lfs_dir_commit_size
  method CommitSize(disk: seq<Entry>, attrs: seq<Attr>, begin: nat, end: nat) returns (size: nat)
    requires ValidDisk(disk) && ValidAttrs(attrs)
    ensures size == LfsChain.TotalSize(Compacted(disk, attrs, begin, end))
  {
    var out := Traverse(disk, attrs, begin, end);
    size := 0;
    assert out[..|out|] == out;
    for i := 0 to |out|
      invariant size == LfsChain.TotalSize(out[..i])
    {
      assert out[..i + 1][..i] == out[..i];
      size := size + LfsChain.DSize(out[i].tag);
    }
  }

  // Small enough to be left in one pair
  predicate Fits(disk: seq<Entry>, attrs: seq<Attr>, g: Geometry, begin: nat, end: nat)
    requires ValidGeometry(g)
  {
    var size := LfsChain.TotalSize(Compacted(disk, attrs, begin, end));
    && end - begin < 0xff
    && size <= g.metadataMax - 40
    && size <= AlignUp(g.metadataMax / 2, g.progSize)
  }

  // One file, or few enough
  predicate Enough(disk: seq<Entry>, attrs: seq<Attr>, g: Geometry, begin: nat, end: nat)
    requires ValidGeometry(g) && begin <= end
  {
    end - begin <= 1 || Fits(disk, attrs, g, begin, end)
  }

  // The ids left to move out after halving them n times
  function Halved(begin: nat, end: nat, n: nat): (split: nat)
    requires begin <= end
    ensures begin <= split <= end
  {
    if n == 0 then begin else Halved(begin, end, n - 1) + (end - Halved(begin, end, n - 1)) / 2
  }

  // The first of these cuts behind which there is little enough
  ghost predicate FirstCut(disk: seq<Entry>, attrs: seq<Attr>, g: Geometry, begin: nat, end: nat, split: nat)
    requires ValidGeometry(g) && begin <= end
  {
    exists n: nat ::
      && split == Halved(begin, end, n) && Enough(disk, attrs, g, split, end)
      && forall m: nat :: m < n ==> !Enough(disk, attrs, g, Halved(begin, end, m), end)
  }

  // What fits is not cut.
  lemma NoCut(disk: seq<Entry>, attrs: seq<Attr>, g: Geometry, begin: nat, end: nat, split: nat)
    requires ValidGeometry(g) && begin <= end && FirstCut(disk, attrs, g, begin, end, split)
    ensures Enough(disk, attrs, g, begin, end) <==> split == begin
  {
    hide Fits;
    var n: nat :| split == Halved(begin, end, n) && Enough(disk, attrs, g, split, end)
                  && forall m: nat :: m < n ==> !Enough(disk, attrs, g, Halved(begin, end, m), end);
    assert Halved(begin, end, 0) == begin;
  }

  // The inner loop: halve the ids to move out until they fit.
  method SplitPoint(disk: seq<Entry>, attrs: seq<Attr>, g: Geometry, begin: nat, end: nat) returns (split: nat)
    requires ValidDisk(disk) && ValidAttrs(attrs) && ValidGeometry(g) && begin <= end
    ensures begin <= split <= end && (begin < end ==> split < end)
    ensures FirstCut(disk, attrs, g, begin, end, split)
  {
    split := begin;
    ghost var n: nat := 0;
    hide Enough, Fits;
    while end - split > 1
      invariant begin <= split <= end && (begin < end ==> split < end) && split == Halved(begin, end, n)
      invariant forall m: nat :: m < n ==> !Enough(disk, attrs, g, Halved(begin, end, m), end)
      decreases end - split
    {
      var fits := Measure(disk, attrs, g, split, end);
      if fits {
        return;
      }
      split := split + (end - split) / 2;
      n := n + 1;
    }
    OneFile(disk, attrs, g, split, end);
  }

  lemma OneFile(disk: seq<Entry>, attrs: seq<Attr>, g: Geometry, begin: nat, end: nat)
    requires ValidGeometry(g) && begin <= end <= begin + 1
    ensures Enough(disk, attrs, g, begin, end)
  {
  }

  // The size of what is moved out, against the room that it is given
  method Measure(disk: seq<Entry>, attrs: seq<Attr>, g: Geometry, split: nat, end: nat) returns (fits: bool)
    requires ValidDisk(disk) && ValidAttrs(attrs) && ValidGeometry(g) && split + 1 < end
    ensures fits <==> Enough(disk, attrs, g, split, end)
  {
    hide Compacted, LfsChain.TotalSize;
    var size := CommitSize(disk, attrs, split, end);
    var half := AlignUp(g.metadataMax / 2, g.progSize);
    fits := end - split < 0xff && size <= (if g.metadataMax - 40 < half then g.metadataMax - 40 else half);
  }

  // ---- The chain -------------------------------------------------------------

  // The parts follow each other and cover the ids [begin, end).
  ghost predicate Covers(parts: seq<Part>, begin: nat, end: nat) {
    if parts == [] then begin == end
    else parts[0].begin == begin && begin <= parts[0].end <= end && Covers(parts[1..], parts[0].end, end)
  }

  ghost predicate Compacts(parts: seq<Part>, disk: seq<Entry>, attrs: seq<Attr>) {
    forall i :: 0 <= i < |parts| ==> parts[i].log == Compacted(disk, attrs, parts[i].begin, parts[i].end)
  }

  function Width(p: Part): nat {
    if p.begin <= p.end then p.end - p.begin else 0
  }

  // What a walk along the chain finds: an id past the end of a pair is looked
  // up in the next pair, less the files of this one.
  function ChainGet(parts: seq<Part>, k: Key): Option<Value> {
    if parts == [] then None
    else if k.id < Width(parts[0]) then Get(Replay(parts[0].log).files, k)
    else ChainGet(parts[1..], Key(k.id - Width(parts[0]), k.cls))
  }

  // The part holds the files of m it took over.
  ghost predicate PartOf(p: Part, m: map<Key, Value>) {
    forall k: Key {:trigger Get(Replay(p.log).files, k)} :: k.id < Width(p) ==>
      Get(Replay(p.log).files, k) == Get(m, Key(p.begin + k.id, k.cls))
  }

  lemma {:induction false} ChainWalk(parts: seq<Part>, m: map<Key, Value>, begin: nat, end: nat, k: Key)
    requires Covers(parts, begin, end) && forall i :: 0 <= i < |parts| ==> PartOf(parts[i], m)
    ensures ChainGet(parts, k) == if begin + k.id < end then Get(m, Key(begin + k.id, k.cls)) else None
    decreases |parts|
  {
    if parts != [] {
      var p := parts[0];
      if k.id >= Width(p) {
        ChainWalk(parts[1..], m, p.end, end, Key(k.id - Width(p), k.cls));
      }
    }
  }

  lemma CutsAgree(disk: seq<Entry>, attrs: seq<Attr>, begin: nat, middle: nat, end: nat, k: Key)
    requires ValidDisk(disk) && ValidAttrs(attrs) && begin + k.id < middle <= end
    ensures Get(Replay(Compacted(disk, attrs, begin, middle)).files, k) ==
            Get(Replay(Compacted(disk, attrs, 0, end)).files, Key(begin + k.id, k.cls))
  {
    hide Compacted, Replay, Get, Last, Collect, DiskItems, Flatten, ValidDisk, ValidAttrs;
    CompactionCut(disk, attrs, begin, middle, k);
    CompactionCut(disk, attrs, 0, end, Key(begin + k.id, k.cls));
  }

  // Wherever the cuts are, walking the chain finds what compacting in one
  // piece would have kept: no file is lost and none appears twice.
  lemma {:induction false} ChainIsOnePiece(parts: seq<Part>, disk: seq<Entry>, attrs: seq<Attr>,
                                           begin: nat, end: nat, k: Key)
    requires ValidDisk(disk) && ValidAttrs(attrs)
    requires Covers(parts, begin, end) && Compacts(parts, disk, attrs)
    ensures ChainGet(parts, k) == Get(Replay(Compacted(disk, attrs, begin, end)).files, k)
  {
    hide Compacted, Replay, Get, CommittedFiles, Revives;
    var whole := Replay(Compacted(disk, attrs, 0, end)).files;
    forall i | 0 <= i < |parts| ensures PartOf(parts[i], whole) {
      PartsEnd(parts, begin, end, i);
      CompactedPart(parts[i], disk, attrs, end);
    }
    ChainWalk(parts, whole, begin, end, k);
    if begin + k.id < end {
      CutsAgree(disk, attrs, begin, end, end, k);
    } else {
      CompactionGet(disk, attrs, begin, end, k);
    }
  }

  // The chain holds exactly the files of the log that was cut up, unless the
  // attributes revive something.
  lemma ChainPreserves(parts: seq<Part>, disk: seq<Entry>, attrs: seq<Attr>, begin: nat, end: nat, k: Key)
    requires ValidDisk(disk) && ValidAttrs(attrs)
    requires Covers(parts, begin, end) && Compacts(parts, disk, attrs)
    ensures var key := Key(begin + k.id, k.cls);
      if key.id >= end then ChainGet(parts, k) == None
      else ChainGet(parts, k) == Get(CommittedFiles(disk, attrs), key) <==> !Revives(Flatten(attrs), key)
  {
    ChainIsOnePiece(parts, disk, attrs, begin, end, k);
    CompactionGet(disk, attrs, begin, end, k);
  }

  lemma {:induction false} PartsEnd(parts: seq<Part>, begin: nat, end: nat, i: nat)
    requires Covers(parts, begin, end) && i < |parts|
    ensures parts[i].begin <= parts[i].end <= end
    decreases |parts|
  {
    if i > 0 {
      PartsEnd(parts[1..], parts[0].end, end, i - 1);
    }
  }

  lemma CompactedPart(p: Part, disk: seq<Entry>, attrs: seq<Attr>, end: nat)
    requires ValidDisk(disk) && ValidAttrs(attrs)
    requires p.log == Compacted(disk, attrs, p.begin, p.end) && p.begin <= p.end <= end
    ensures PartOf(p, Replay(Compacted(disk, attrs, 0, end)).files)
  {
    hide Compacted, Replay, Get;
    var files, whole := Replay(p.log).files, Replay(Compacted(disk, attrs, 0, end)).files;
    forall k: Key | k.id < Width(p) ensures Get(files, k) == Get(whole, Key(p.begin + k.id, k.cls)) {
      CutsAgree(disk, attrs, p.begin, p.end, end, k);
    }
  }

  // Every part from the i-th on was cut off at the first cut that leaves enough
  // room.
  ghost predicate CutFirst(parts: seq<Part>, disk: seq<Entry>, attrs: seq<Attr>, g: Geometry, begin: nat, i: nat)
    requires ValidGeometry(g)
  {
    forall j {:trigger parts[j]} :: i <= j < |parts| ==>
      begin < parts[j].begin <= parts[j].end && FirstCut(disk, attrs, g, begin, parts[j].end, parts[j].begin)
  }

  // lfs_dir_splittingcompact.  `spare` is the number of pairs that can still
  // be allocated; when they run out the rest is compacted in one piece.
  method SplittingCompact(disk: seq<Entry>, attrs: seq<Attr>, g: Geometry, begin: nat, count: nat, spare: nat)
    returns (parts: seq<Part>)
    requires ValidDisk(disk) && ValidAttrs(attrs) && ValidGeometry(g) && begin <= count
    ensures parts != [] && Covers(parts, begin, count) && Compacts(parts, disk, attrs)
    ensures |parts| - 1 <= spare
    ensures CutFirst(parts, disk, attrs, g, begin, 1)
    ensures begin <= parts[0].end && (|parts| - 1 < spare ==> Enough(disk, attrs, g, begin, parts[0].end))
    ensures Enough(disk, attrs, g, begin, count) ==> |parts| == 1
    ensures forall k {:trigger ChainGet(parts, k)} ::
              ChainGet(parts, k) == Get(Replay(Compacted(disk, attrs, begin, count)).files, k)
  {
    hide Compacted, Fits, FirstCut;
    var end, left := count, spare;
    parts := [];
    var split := SplitPoint(disk, attrs, g, begin, end);
    while split != begin && left > 0
      invariant begin <= split <= end && (begin < end ==> split < end)
      invariant FirstCut(disk, attrs, g, begin, end, split) && (parts == [] ==> end == count)
      invariant Covers(parts, end, count) && Compacts(parts, disk, attrs)
      invariant |parts| + left == spare
      invariant CutFirst(parts, disk, attrs, g, begin, 0)
      invariant parts != [] ==> !Enough(disk, attrs, g, begin, count)
      decreases end
    {
      // lfs_dir_split: a new pair takes over [split, end)
      var log := Traverse(disk, attrs, split, end);
      ghost var old_parts := parts;
      NoCut(disk, attrs, g, begin, end, split);
      parts := [Part(split, end, log)] + parts;
      assert parts[1..] == old_parts;
      left := left - 1;
      end := split;
      split := SplitPoint(disk, attrs, g, begin, end);
    }
    NoCut(disk, attrs, g, begin, end, split);
    var log := Traverse(disk, attrs, begin, end);
    ghost var tail := parts;
    parts := [Part(begin, end, log)] + parts;
    assert parts[1..] == tail;
    forall k
      ensures ChainGet(parts, k) == Get(Replay(Compacted(disk, attrs, begin, count)).files, k)
    {
      ChainIsOnePiece(parts, disk, attrs, begin, count, k);
    }
  }
}
