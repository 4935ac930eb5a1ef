// Power loss at any byte of a commit to the two blocks of a metadata pair: a
// fetch of the pair's bytes means the old log or the new one.

module LfsAtomic {
  import opened Bytes
  import opened Options
  import opened LfsLog
  import opened LfsChain
  import opened LfsCommit
  import opened LfsCrash
  import opened LfsCrc
  import opened LfsImage
  import opened LfsWrite
  import Cache = LfsCache
  import G = LfsGstate
  import Pairs = LfsPair
  import Split = LfsSplit
  import Traverse = LfsTraverse
  import Compact = LfsCompact

  // ---- One block cut off --------------------------------------------------------

  // Where the k-th cell of a block begins
  ghost function HeadAt(img: seq<byte>, k: nat): Head
    requires |img| >= 4
  {
    Nth(img, Start(img), k)
  }

  // Power has been lost on the way to `img`: its first n cells are there byte
  // for byte, and what is behind them holds no validating commit.
  ghost predicate TornAt(img: seq<byte>, torn: seq<byte>, n: nat) {
    && 4 <= |img| == |torn|
    && Kept(img, torn, HeadAt(img, n).off) && CommitEnd(Parse(torn, HeadAt(img, n))) == 0
  }

  // The cells of a commit
  ghost function CellsOf(tags: seq<Entry>, checks: seq<Cell>): seq<Cell> {
    Cells(tags, false) + checks
  }

  lemma ReadsFront(img: seq<byte>, h: Head, cells: seq<Cell>, n: nat)
    requires Reads(img, h, cells) && n <= |cells|
    ensures Reads(img, h, cells[..n])
  {
    hide TagAt, Passes, Nth;
    forall k | 0 <= k < n ensures ReadsAt(img, h, cells[..n], k) {
      assert ReadsAt(img, h, cells, k);
    }
  }

  lemma ReadsPass(img: seq<byte>, h: Head, cells: seq<Cell>)
    requires Reads(img, h, cells)
    ensures forall j :: 0 <= j < |cells| ==> Passes(cells[j])
  {
    hide TagAt, Passes, Nth;
    forall j | 0 <= j < |cells| ensures Passes(cells[j]) {
      assert ReadsAt(img, h, cells, j);
    }
  }

  lemma PassesOk(cells: seq<Cell>)
    requires forall j :: 0 <= j < |cells| ==> Passes(cells[j])
    ensures forall j :: 0 <= j < |cells| && IsCrc(cells[j].e.tag) ==> cells[j].ok
  {
  }

  lemma HeadBehindStart(img: seq<byte>, cells: seq<Cell>)
    requires |img| >= 4 && Reads(img, Start(img), cells)
    ensures 4 <= HeadAt(img, |cells|).off
  {
    ReadsHold(img, cells);
    OffMonotone(Log(cells), 0, |Log(cells)|);
  }

  // A scan of the torn block finds the cells that are there, and no commit
  // behind the last of theirs.
  lemma TornReads(img: seq<byte>, torn: seq<byte>, all: seq<Cell>, n: nat)
    requires |img| >= 4 && Reads(img, Start(img), all) && AllWhole(all) && n <= |all| && TornAt(img, torn, n)
    ensures torn[..4] == img[..4]
    ensures CommitEnd(ImageCells(torn)) == CommitEnd(all[..n])
    ensures Committed(ImageCells(torn)) == Committed(all[..n])
  {
    var front, h := all[..n], HeadAt(img, n);
    assert AllWhole(front);
    ReadsFront(img, Start(img), all, n);
    ReadsPass(img, Start(img), front);
    PassesOk(front);
    HeadBehindStart(img, front);
    hide TagAt, Reads, Nth, Parse, AllWhole, Passes, CommitEnd, Log, IsCrc;
    SameStart(img, torn, 4, h.off);
    StartSame(img, torn);
    ReadsFrame(img, torn, Start(img), front);
    ReadsParse(torn, Start(torn), front);
    var rest := Parse(torn, h);
    Pairs.CommitEndAfter(front, rest);
    assert (front + rest)[..CommitEnd(front)] == front[..CommitEnd(front)];
  }

  lemma SizedNoCrc(tags: seq<Entry>)
    requires AllSized(tags)
    ensures NoCrc(Cells(tags, false))
  {
    CellsAt(tags, false);
    forall i | 0 <= i < |tags| ensures !IsCrc(Cells(tags, false)[i].e.tag) {
      assert Sized(tags[i]);
    }
  }

  // How far the first k cells of a commit count
  lemma {:induction false} PartCounts(tags: seq<Entry>, checks: seq<Cell>, k: nat)
    requires AllSized(tags) && Closing(checks) && k <= |tags| + |checks|
    ensures var n := CommitEnd(CellsOf(tags, checks)[..k]);
      && (n > 0 ==>
            && |tags| < n <= k
            && CellsOf(tags, checks)[..n] == Cells(tags, false) + checks[..n - |tags|])
      && (k == |tags| + |checks| ==> n == k)
  {
    var all := CellsOf(tags, checks);
    var part := all[..k];
    var n := CommitEnd(part);
    SizedNoCrc(tags);
    if n > 0 {
      LastIsCheck(part);
      assert part[n - 1] == all[n - 1];
    }
    if k == |tags| + |checks| {
      assert part == all;
      ClosingEnds(checks);
      CommitEndTags(Cells(tags, false), checks);
    }
  }

  lemma ChecksFront(checks: seq<Cell>, n: nat)
    requires AllChecks(checks) && n <= |checks|
    ensures AllChecks(checks[..n])
  {
  }

  // What is committed when a part of a commit follows closed commits
  lemma {:induction false} PartCommitted(cells: seq<Cell>, part: seq<Cell>)
    requires CommitEnd(cells) == |cells|
    ensures CommitEnd(cells + part) == |cells| + CommitEnd(part)
    ensures Committed(cells + part) == Log(cells) + Committed(part)
  {
    var n := CommitEnd(part);
    CommitEndConcat(cells, part);
    hide CommitEnd, Log;
    assert (cells + part)[..|cells| + n] == cells + part[..n];
    LogConcat(cells, part[..n]);
  }

  lemma {:induction false} PartLog(tags: seq<Entry>, checks: seq<Cell>, k: nat) returns (closed: seq<Cell>)
    requires AllSized(tags) && Closing(checks) && k <= |tags| + |checks|
    ensures AllChecks(closed)
    ensures Committed(CellsOf(tags, checks)[..k]) ==
            if CommitEnd(CellsOf(tags, checks)[..k]) > 0 then tags + Log(closed) else []
  {
    var part := CellsOf(tags, checks)[..k];
    var n := CommitEnd(part);
    PartCounts(tags, checks, k);
    closed := if n > 0 then checks[..n - |tags|] else [];
    ChecksFront(checks, |closed|);
    LogCells(tags, false);
    hide CommitEnd, Cells, CellsOf, AllChecks, AllSized, Closing;
    if n > 0 {
      LogConcat(Cells(tags, false), closed);
      hide Log;
      assert part[..n] == CellsOf(tags, checks)[..n];
    }
  }

  // What the first k cells of a commit behind closed commits mean
  lemma {:induction false} PartMeans(cells: seq<Cell>, tags: seq<Entry>, checks: seq<Cell>, k: nat)
    requires CommitEnd(cells) == |cells| && AllSized(tags) && Closing(checks) && k <= |tags| + |checks|
    ensures var front := cells + CellsOf(tags, checks)[..k];
      var m, n := LogMeaning(Log(cells)), CommitEnd(CellsOf(tags, checks)[..k]);
      && CommitEnd(front) == |cells| + n
      && LogMeaning(Committed(front)) == if n > 0 then ApplyAll(m, tags) else m
  {
    var part := CellsOf(tags, checks)[..k];
    var closed := PartLog(tags, checks, k);
    hide CommitEnd, Log, Cells, CellsOf, LogMeaning, ApplyAll, AllChecks, AllSized, Closing, Committed;
    PartCommitted(cells, part);
    if CommitEnd(part) > 0 {
      MeaningAppend(Log(cells), tags + Log(closed));
      ClosingMeans(LogMeaning(Log(cells)), tags, closed);
    } else {
      assert Log(cells) + [] == Log(cells);
    }
  }

  // All that has been read once a commit is written
  ghost function AllOf(cells: seq<Cell>, tags: seq<Entry>, checks: seq<Cell>): seq<Cell> {
    cells + CellsOf(tags, checks)
  }

  lemma {:induction false} FrontOf(cells: seq<Cell>, tags: seq<Entry>, checks: seq<Cell>, k: nat)
    requires k <= |tags| + |checks|
    ensures |cells| + k <= |AllOf(cells, tags, checks)|
    ensures AllOf(cells, tags, checks)[..|cells| + k] == cells + CellsOf(tags, checks)[..k]
  {
    hide Cells;
  }

  lemma {:induction false} WrittenReads(img: seq<byte>, cells: seq<Cell>, tags: seq<Entry>, checks: seq<Cell>)
    requires Written(img, cells, tags, checks)
    ensures var all := AllOf(cells, tags, checks);
      && |img| >= 4 && Reads(img, Start(img), all) && AllWhole(all)
      && CommitEnd(cells) == |cells| && AllSized(tags) && Closing(checks)
  {
    hide CommitEnd, Cells, AllSized, Closing, Reads, Nth, Start, AllWhole, EndOf;
  }

  // Does a commit cut off after k cells count?
  ghost predicate Counts(tags: seq<Entry>, checks: seq<Cell>, k: nat)
    requires k <= |tags| + |checks|
  {
    CommitEnd(CellsOf(tags, checks)[..k]) > 0
  }

  lemma CountsFrom(tags: seq<Entry>, checks: seq<Cell>, k: nat)
    requires AllSized(tags) && Closing(checks) && k <= |tags| + |checks|
    ensures Counts(tags, checks, k) ==> |tags| < k
    ensures k == |tags| + |checks| ==> Counts(tags, checks, k)
  {
    PartCounts(tags, checks, k);
    hide CommitEnd, CellsOf, AllSized, AllChecks;
  }

  lemma FrontMeans(cells: seq<Cell>, tags: seq<Entry>, checks: seq<Cell>, k: nat)
    requires CommitEnd(cells) == |cells| && AllSized(tags) && Closing(checks) && k <= |tags| + |checks|
    ensures |cells| + k <= |AllOf(cells, tags, checks)|
    ensures var front := AllOf(cells, tags, checks)[..|cells| + k];
      var m, took := LogMeaning(Log(cells)), Counts(tags, checks, k);
      && CommitEnd(front) >= |cells| && (took <==> CommitEnd(front) > |cells|)
      && LogMeaning(Committed(front)) == if took then ApplyAll(m, tags) else m
  {
    PartMeans(cells, tags, checks, k);
    hide CommitEnd, CellsOf, AllSized, Closing, LogMeaning, Log, Committed, AllOf, ApplyAll;
    FrontOf(cells, tags, checks, k);
  }

  // A commit cut off at any byte counts from its first checksum on, and a
  // block that holds all of it means the new log.
  lemma TornCommit(img: seq<byte>, cells: seq<Cell>, tags: seq<Entry>, checks: seq<Cell>, torn: seq<byte>, k: nat)
    requires Written(img, cells, tags, checks) && k <= |tags| + |checks| && TornAt(img, torn, |cells| + k)
    ensures torn[..4] == img[..4]
    ensures (Counts(tags, checks, k) ==> |tags| < k) && (k == |tags| + |checks| ==> Counts(tags, checks, k))
    ensures CommitEnd(ImageCells(torn)) >= |cells|
    ensures Counts(tags, checks, k) <==> CommitEnd(ImageCells(torn)) > |cells|
    ensures var m := LogMeaning(Log(cells));
      LogMeaning(Committed(ImageCells(torn))) == if Counts(tags, checks, k) then ApplyAll(m, tags) else m
  {
    hide *;
    WrittenReads(img, cells, tags, checks);
    CountsFrom(tags, checks, k);
    FrontMeans(cells, tags, checks, k);
    TornReads(img, torn, AllOf(cells, tags, checks), |cells| + k);
  }

  // ---- The pair --------------------------------------------------------------------

  // The two blocks of a pair, byte for byte
  type Image = img: seq<byte> | 4 <= |img| witness [0, 0, 0, 0]
  datatype Images = Images(b0: Image, b1: Image)

  function Side(p: Images, second: bool): Image {
    if second then p.b1 else p.b0
  }

  function Store(p: Images, second: bool, img: Image): Images {
    if second then p.(b1 := img) else p.(b0 := img)
  }

  function Rev(img: Image): nat {
    FromLe32(img[..4])
  }

  function BlockOf(img: Image): Block {
    Block(Rev(img), ImageCells(img))
  }

  // What a fetch of the two blocks' bytes yields
  ghost function FetchedFrom(p: Images): Option<Meaning> {
    Fetched(Pair(BlockOf(p.b0), BlockOf(p.b1)))
  }

  function MeaningIn(img: Image): Meaning {
    LogMeaning(Committed(ImageCells(img)))
  }

  predicate HasCommit(img: Image) {
    CommitEnd(ImageCells(img)) > 0
  }

  // `second` says which block is current: it holds a commit of this code, and
  // the other one holds none or is older.
  ghost predicate SoundPair(p: Images, second: bool) {
    var cur, other := Side(p, second), Side(p, !second);
    && OwnBlock(cur) && HasCommit(cur)
    && (HasCommit(other) ==> Newer(Rev(cur), Rev(other)))
  }

  // A block with a commit is fetched if the other one has none or is older.
  lemma FetchedSide(p: Images, second: bool)
    requires HasCommit(Side(p, second))
    requires HasCommit(Side(p, !second)) ==> Newer(Rev(Side(p, second)), Rev(Side(p, !second)))
    ensures FetchedFrom(p) == Some(MeaningIn(Side(p, second)))
  {
    hide ImageCells, CommitEnd, Committed, LogMeaning;
    ToFromLe32(p.b0[..4]);
    ToFromLe32(p.b1[..4]);
    if HasCommit(Side(p, !second)) {
      NewerNotBoth(Rev(Side(p, second)), Rev(Side(p, !second)));
    }
  }

  lemma SoundParts(p: Images, second: bool)
    requires SoundPair(p, second)
    ensures OwnBlock(Side(p, second)) && HasCommit(Side(p, second))
  {
    hide OwnBlock, HasCommit;
  }

  // The current block with other cells behind its revision
  lemma StillCurrent(p: Images, second: bool, img: Image)
    requires SoundPair(p, second) && img[..4] == Side(p, second)[..4] && HasCommit(img)
    ensures FetchedFrom(Store(p, second, img)) == Some(MeaningIn(img))
  {
    hide HasCommit, FetchedFrom, MeaningIn, OwnBlock;
    assert Rev(img) == Rev(Side(p, second));
    FetchedSide(Store(p, second, img), second);
  }

  lemma OwnBegins(block: Image, img: Image)
    requires OwnBlock(block) && HasCommit(block) && Kept(block, img, EndOf(block).off)
    ensures |img| == |block| && img[..4] == block[..4]
    ensures |OwnCells(block)| > 0 && LogMeaning(Log(OwnCells(block))) == MeaningIn(block)
  {
    var cells := OwnReads(block);
    hide ImageCells, EndOf, CommitEnd, Log, LogMeaning;
    SameStart(block, img, 4, EndOf(block).off);
  }

  // An append cut off at any byte: the pair means the old log until the first
  // checksum is there, and the old log with the tags from then on.
  lemma AppendTorn(p: Images, second: bool, img: Image, tags: seq<Entry>, checks: seq<Cell>, torn: Image, k: nat)
    requires SoundPair(p, second) && k <= |tags| + |checks|
    requires Kept(Side(p, second), img, EndOf(Side(p, second)).off)
    requires Written(img, OwnCells(Side(p, second)), tags, checks)
    requires TornAt(img, torn, |OwnCells(Side(p, second))| + k)
    ensures (Counts(tags, checks, k) ==> |tags| < k) && (k == |tags| + |checks| ==> Counts(tags, checks, k))
    ensures var m := MeaningIn(Side(p, second));
      FetchedFrom(Store(p, second, torn)) == Some(if Counts(tags, checks, k) then ApplyAll(m, tags) else m)
  {
    hide SoundPair, Kept, EndOf, Side, Written, OwnCells, TornAt, Counts, Store, FetchedFrom, ApplyAll;
    hide OwnBlock, ImageCells, CommitEnd, Committed, Log, LogMeaning;
    var cur := Side(p, second);
    SoundParts(p, second);
    OwnBegins(cur, img);
    TornCommit(img, OwnCells(cur), tags, checks, torn, k);
    StillCurrent(p, second, torn);
  }

  lemma BehindCells(all: seq<Cell>, cells: seq<Cell>, rest: seq<Cell>)
    requires cells == all[..CommitEnd(all)] && CommitEnd(cells) == |cells| && CommitEnd(rest) == 0
    requires TailsWhole(all) && AllWhole(cells)
    ensures var now := cells + rest;
      CommitEnd(now) == |cells| && now[..|cells|] == cells && TailsWhole(now) && AllWhole(now[..CommitEnd(now)])
  {
    CommitEndConcat(cells, rest);
    hide CommitEnd, Whole, Type1;
    assert (cells + rest)[..|cells|] == cells;
    forall i | 0 <= i < |cells| && Type1(cells[i].e.tag.typ) == TYPE_TAIL ensures cells[i].e.tag.size == 8 {
      assert cells[i] == all[i];
    }
  }

  lemma BehindBlock(block: Image, torn: Image)
    requires OwnBlock(block) && HasCommit(block) && Kept(block, torn, EndOf(block).off)
    requires CommitEnd(Parse(torn, EndOf(block))) == 0
    ensures OwnBlock(torn) && HasCommit(torn) && MeaningIn(torn) == MeaningIn(block)
  {
    var cells := OwnReads(block);
    hide Reads, Nth, TagAt, Parse, CommitEnd, Log, LogMeaning, AllWhole, TailsWhole, Kept, ReadSoFar, EndOf, Start;
    BehindTheEnd(block, torn, cells, EndOf(block));
    BehindCells(ImageCells(block), cells, Parse(torn, EndOf(block)));
    assert |torn| == |block| by {
      OwnBegins(block, torn);
    }
  }

  // As long as nothing behind the old end validates the old log is fetched,
  // and the pair is sound, whatever an abandoned append has left there.
  lemma BehindTorn(p: Images, second: bool, torn: Image)
    requires SoundPair(p, second) && Kept(Side(p, second), torn, EndOf(Side(p, second)).off)
    requires CommitEnd(Parse(torn, EndOf(Side(p, second)))) == 0
    ensures FetchedFrom(Store(p, second, torn)) == Some(MeaningIn(Side(p, second)))
    ensures SoundPair(Store(p, second, torn), second) && MeaningIn(torn) == MeaningIn(Side(p, second))
  {
    hide Parse, CommitEnd, MeaningIn, Kept, EndOf, FetchedFrom, OwnBlock, HasCommit, OwnCells, LogMeaning, Log;
    OwnBegins(Side(p, second), torn);
    BehindBlock(Side(p, second), torn);
    assert Rev(torn) == Rev(Side(p, second));
    StillCurrent(p, second, torn);
  }

  // A rewrite of the other block that has not got past its first tags: no
  // commit is in it.
  lemma RewriteBegun(p: Images, second: bool, torn: Image)
    requires SoundPair(p, second) && !HasCommit(torn)
    ensures SoundPair(Store(p, !second, torn), second)
    ensures FetchedFrom(Store(p, !second, torn)) == Some(MeaningIn(Side(p, second)))
  {
    hide OwnBlock, HasCommit, FetchedFrom, MeaningIn;
    FetchedSide(Store(p, !second, torn), second);
  }

  // A block with a commit and the next revision takes over.
  lemma TakesOver(p: Images, second: bool, img: Image)
    requires HasCommit(img) && Rev(img) == NextRev(Rev(Side(p, second)))
    ensures FetchedFrom(Store(p, !second, img)) == Some(MeaningIn(img))
    ensures OwnBlock(img) ==> SoundPair(Store(p, !second, img), !second)
  {
    hide OwnBlock, HasCommit, FetchedFrom, MeaningIn;
    ToFromLe32(Side(p, second)[..4]);
    NextRevNewer(Rev(Side(p, second)));
    FetchedSide(Store(p, !second, img), !second);
  }

  // A rewrite of the other block cut off at any byte
  lemma RewriteTorn(p: Images, second: bool, img: Image, tags: seq<Entry>, checks: seq<Cell>, torn: Image, k: nat)
    requires SoundPair(p, second) && k <= |tags| + |checks|
    requires Rev(img) == NextRev(Rev(Side(p, second)))
    requires Written(img, [], tags, checks) && TornAt(img, torn, k)
    ensures (Counts(tags, checks, k) ==> |tags| < k) && (k == |tags| + |checks| ==> Counts(tags, checks, k))
    ensures FetchedFrom(Store(p, !second, torn)) ==
            Some(if Counts(tags, checks, k) then LogMeaning(tags) else MeaningIn(Side(p, second)))
  {
    hide SoundPair, Side, Written, TornAt, Counts, Store, FetchedFrom, ApplyAll, ImageCells, CommitEnd, Committed;
    hide LogMeaning, NextRev;
    TornCommit(img, [], tags, checks, torn, k);
    assert Rev(torn) == Rev(img);
    if Counts(tags, checks, k) {
      MeaningAppend([], tags);
      assert [] + tags == tags;
      TakesOver(p, second, torn);
    } else {
      RewriteBegun(p, second, torn);
    }
  }

  // ---- Fetching and committing ---------------------------------------------------------

  // lfs_dir_fetch on the bytes: the block that looks newer, and failing that
  // the other one
  method FetchImages(p: Images)
    returns (second: bool, off: nat, etag: nat, count: int, hard: bool, pair: seq<byte>)
    requires TailsWhole(ImageCells(p.b0)) && TailsWhole(ImageCells(p.b1))
    ensures off > 0 <==> FetchedFrom(p).Some?
    ensures off > 0 ==>
              && FetchedFrom(p) == Some(MeaningIn(Side(p, second)))
              && count == MeaningIn(Side(p, second)).count
              && Pairs.Canonical(hard, pair) == MeaningIn(Side(p, second)).tail
  {
    hide ImageCells, CommitEnd, Committed, LogMeaning, TailsWhole, Reads, Nth, Start, Pairs.Canonical;
    second := Newer(FromLe32(p.b1[..4]), FromLe32(p.b0[..4]));
    off, etag, count, hard, pair := FetchImage(Side(p, second));
    if off == 0 {
      // no commit here
      second := !second;
      off, etag, count, hard, pair := FetchImage(Side(p, second));
    }
  }

  // However far the writing of the block has got, byte by byte, the pair means
  // the old or the new log, and the new one when all of it is there.
  ghost predicate Atomic(p: Images, writing: bool, img: Image, begin: nat, end: nat, before: Meaning, after: Meaning) {
    forall torn: Image, n {:trigger TornAt(img, torn, n)} :: begin <= n <= end && TornAt(img, torn, n) ==>
      var f := FetchedFrom(Store(p, writing, torn));
      (f == Some(before) && n < end) || f == Some(after)
  }

  lemma AppendAtomicBytes(p: Images, second: bool, img: Image, tags: seq<Entry>, checks: seq<Cell>, after: Meaning)
    requires SoundPair(p, second) && Kept(Side(p, second), img, EndOf(Side(p, second)).off)
    requires Written(img, OwnCells(Side(p, second)), tags, checks)
    requires after == ApplyAll(MeaningIn(Side(p, second)), tags)
    ensures var begin := |OwnCells(Side(p, second))|;
      Atomic(p, second, img, begin, begin + |tags| + |checks|, MeaningIn(Side(p, second)), after)
  {
    hide SoundPair, Kept, EndOf, Written, OwnCells, TornAt, Counts, FetchedFrom, ApplyAll, MeaningIn;
    var begin := |OwnCells(Side(p, second))|;
    forall torn: Image, n | begin <= n <= begin + |tags| + |checks| && TornAt(img, torn, n)
      ensures var f := FetchedFrom(Store(p, second, torn));
        (f == Some(MeaningIn(Side(p, second))) && n < begin + |tags| + |checks|) || f == Some(after)
    {
      AppendTorn(p, second, img, tags, checks, torn, n - begin);
    }
  }

  lemma RewriteAtomicBytes(p: Images, second: bool, img: Image, tags: seq<Entry>, checks: seq<Cell>)
    requires SoundPair(p, second) && Rev(img) == NextRev(Rev(Side(p, second))) && Written(img, [], tags, checks)
    ensures Atomic(p, !second, img, 0, |tags| + |checks|, MeaningIn(Side(p, second)), LogMeaning(tags))
  {
    hide SoundPair, Written, TornAt, Counts, FetchedFrom, MeaningIn, LogMeaning, Rev, NextRev;
    forall torn: Image, n | 0 <= n <= |tags| + |checks| && TornAt(img, torn, n)
      ensures var f := FetchedFrom(Store(p, !second, torn));
        (f == Some(MeaningIn(Side(p, second))) && n < |tags| + |checks|) || f == Some(LogMeaning(tags))
    {
      RewriteTorn(p, second, img, tags, checks, torn, n);
    }
  }

  // A commit appended to the current block; `end` counts the cells with it.
  method AppendPair(p: Images, second: bool, c: Commit, prog: nat, limit: nat)
    returns (img: Image, ok: bool, ghost end: nat)
    requires SoundPair(p, second) && EndOf(Side(p, second)).off + 8 <= |Side(p, second)|
    requires limit + 8 <= |Side(p, second)| && 0 < prog < WORD && Cache.Aligned(|Side(p, second)|, prog)
    requires ValidCommit(c) && c.fcrc == [] && AllSized(AppendTags(MeaningIn(Side(p, second)), c))
    ensures Kept(Side(p, second), img, EndOf(Side(p, second)).off)
    ensures limit + 8 == |Side(p, second)| ==>
              var tags := AppendTags(MeaningIn(Side(p, second)), c);
              (ok <==> EndOf(Side(p, second)).off + TotalSize(tags) <= limit || tags == [])
    ensures ok ==>
              var m := MeaningIn(Side(p, second));
              && FetchedFrom(Store(p, second, img)) == Some(Intended(m, c))
              && SoundPair(Store(p, second, img), second)
              && end > |OwnCells(Side(p, second))| + |AppendTags(m, c)|
              && Atomic(p, second, img, |OwnCells(Side(p, second))|, end, m, Intended(m, c))
  {
    var cur := Side(p, second);
    var m := MeaningIn(cur);
    var tags := TagsFor(m, c);
    ghost var checks;
    var out;
    out, ok, checks := AppendToBlock(cur, tags, prog, limit);
    OwnBegins(cur, out);
    img := out;
    end := |OwnCells(cur)| + |tags| + |checks|;
    if ok {
      AppendMeans(Committed(ImageCells(cur)), c);
      MeaningAppend(Committed(ImageCells(cur)), tags);
      AppendAtomicBytes(p, second, img, tags, checks, Intended(m, c));
      StillCurrent(p, second, img);
    }
  }

  // A commit that rewrites the pair into its other block
  method RewritePair(p: Images, second: bool, c: Commit, prog: nat, limit: nat)
    returns (img: Image, ok: bool, ghost end: nat)
    requires SoundPair(p, second) && 12 <= |Side(p, !second)| < WORD
    requires limit + 8 <= |Side(p, !second)| && 0 < prog < WORD && Cache.Aligned(|Side(p, !second)|, prog)
    requires Traverse.ValidDisk(Committed(ImageCells(Side(p, second)))) && ValidCommit(c) && c.fcrc == []
    requires Keeps(MeaningIn(Side(p, second)), c) && AllSized(CompactTags(Committed(ImageCells(Side(p, second))), c))
    ensures limit + 8 == |Side(p, !second)| ==>
              var tags := CompactTags(Committed(ImageCells(Side(p, second))), c);
              (ok <==> 4 + TotalSize(tags) <= limit || tags == [])
    ensures ok ==>
              var m := MeaningIn(Side(p, second));
              && FetchedFrom(Store(p, !second, img)) == Some(Intended(m, c))
              && SoundPair(Store(p, !second, img), !second)
              && end > |CompactTags(Committed(ImageCells(Side(p, second))), c)|
              && Atomic(p, !second, img, 0, end, m, Intended(m, c))
  {
    var cur, log := Side(p, second), Committed(ImageCells(Side(p, second)));
    var tags := Pairs.CompactTagList(log, c);
    ghost var checks;
    var out;
    ToFromLe32(cur[..4]);
    out, ok, checks := RewriteBlock(Side(p, !second), NextRev(Rev(cur)), tags, prog, limit);
    img := out;
    end := |tags| + |checks|;
    if ok {
      CompactMeans(log, c);
      RewriteAtomicBytes(p, second, img, tags, checks);
      TakesOver(p, second, img);
    }
  }

  // ---- Room ----------------------------------------------------------------------------

  lemma OneSize(e: Entry)
    ensures TotalSize([e]) == DSize(e.tag) && TotalSize([]) == 0
  {
    assert [e][..0] == [];
  }

  // What lfs_dir_splittingcompact takes to fit into one pair: fewer than 255
  // files that leave room for a tail, a move state and three more words, in no
  // more than half of the block.  It is rewritten without running out of room.
  lemma FittingCommits(log: seq<Entry>, c: Commit, g: Split.Geometry)
    requires ValidCommit(c) && c.fcrc == [] && Split.ValidGeometry(g)
    requires Intended(LogMeaning(log), c).count >= 0
    ensures var n := Intended(LogMeaning(log), c).count;
      var size := TotalSize(Compact.Compacted(log, c.attrs, 0, n));
      Split.Fits(log, c.attrs, g, 0, n) <==>
        && n < 255 && size + DSize(TailEntry(NO_TAIL).tag) + DSize(ShareEntry(G.ZERO).tag) + 12 <= g.metadataMax
        && size <= Split.AlignUp(g.metadataMax / 2, g.progSize)
    ensures Split.Fits(log, c.attrs, g, 0, Intended(LogMeaning(log), c).count) ==>
              4 + TotalSize(CompactTags(log, c)) <= g.metadataMax - 8
  {
    var m := Intended(LogMeaning(log), c);
    var out := Compact.Compacted(log, c.attrs, 0, m.count);
    var tail := if m.tail != NO_TAIL then [TailEntry(m.tail)] else [];
    var share := if m.share != G.ZERO then [ShareEntry(m.share)] else [];
    OneSize(TailEntry(m.tail));
    OneSize(ShareEntry(m.share));
    hide Compact.Compacted, Intended, LogMeaning, TotalSize;
    assert CompactTags(log, c) == out + tail + share + [];
    assert out + tail + share + [] == out + tail + share;
    SizeConcat(out, tail);
    SizeConcat(out + tail, share);
  }
}
