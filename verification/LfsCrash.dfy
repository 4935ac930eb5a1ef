// Power loss during commits: at every point a fetch of the pair yields the
// complete old or the complete new meaning, over any number of commits.

module LfsCrash {
  import opened Options
  import opened LfsLog
  import opened LfsTraverse
  import opened LfsCompact
  import opened LfsMeaning
  import opened LfsCommit
  import G = LfsGstate

  // ---- Cells ------------------------------------------------------------

  function Cells(es: seq<Entry>, ok: bool): (cells: seq<Cell>)
    ensures |cells| == |es|
  {
    if es == [] then [] else Cells(es[..|es| - 1], ok) + [Cell(es[|es| - 1], ok)]
  }

  // What a commit programs: its tags, the checksum, and padding checksums
  function CommitCells(tags: seq<Entry>, c: Commit): seq<Cell> {
    Cells(tags, false) + [Cell(c.crc, true)] + Cells(c.pads, true)
  }

  predicate NoCrcTags(es: seq<Entry>) {
    forall i :: 0 <= i < |es| ==> !IsCrc(es[i].tag)
  }

  lemma {:induction false} CellsAt(es: seq<Entry>, ok: bool)
    ensures forall i :: 0 <= i < |es| ==> Cells(es, ok)[i] == Cell(es[i], ok)
  {
    if es != [] {
      CellsAt(es[..|es| - 1], ok);
    }
  }

  lemma {:induction false} LogConcat(a: seq<Cell>, b: seq<Cell>)
    ensures Log(a + b) == Log(a) + Log(b)
  {
    if b == [] {
      assert a + b == a;
    } else {
      assert (a + b)[..|a + b| - 1] == a + b[..|b| - 1];
      LogConcat(a, b[..|b| - 1]);
    }
  }

  lemma {:induction false} LogCells(es: seq<Entry>, ok: bool)
    ensures Log(Cells(es, ok)) == es
  {
    if es != [] {
      LogCells(es[..|es| - 1], ok);
      assert Cells(es, ok)[..|es| - 1] == Cells(es[..|es| - 1], ok);
    }
  }

  lemma {:induction false} LogLength(cells: seq<Cell>)
    ensures |Log(cells)| == |cells|
    ensures forall i :: 0 <= i < |cells| ==> Log(cells)[i] == cells[i].e
  {
    if cells != [] {
      LogLength(cells[..|cells| - 1]);
    }
  }

  // Validating checksums only
  lemma {:induction false} CommitEndChecks(cells: seq<Cell>, junk: seq<Cell>)
    requires forall i :: 0 <= i < |cells| ==> IsCrc(cells[i].e.tag) && cells[i].ok
    requires CommitEnd(junk) == 0
    ensures CommitEnd(cells + junk) == |cells|
  {
    if cells == [] {
      assert cells + junk == junk;
    } else {
      assert (cells + junk)[1..] == cells[1..] + junk;
      CommitEndChecks(cells[1..], junk);
    }
  }

  // How far a commit cut off after k cells counts: not at all before its
  // checksum, and up to the cut from there on.
  lemma CutCommit(tags: seq<Entry>, c: Commit, k: nat, junk: seq<Cell>)
    requires ValidCommit(c) && NoCrcTags(tags) && CommitEnd(junk) == 0
    requires k <= |CommitCells(tags, c)|
    ensures CommitEnd(CommitCells(tags, c)[..k] + junk) == if k <= |tags| then 0 else k
  {
    var cells := CommitCells(tags, c);
    CellsAt(tags, false);
    CellsAt(c.pads, true);
    if k <= |tags| {
      assert cells[..k] == Cells(tags, false)[..k];
      CommitEndTags(cells[..k], junk);
    } else {
      var checks := cells[|tags|..k];
      assert cells[..k] + junk == Cells(tags, false) + (checks + junk);
      CommitEndChecks(checks, junk);
      CommitEndTags(Cells(tags, false), checks + junk);
    }
  }

  // The log of a cut commit once its checksum is written
  lemma CutLog(tags: seq<Entry>, c: Commit, k: nat)
    requires |tags| < k <= |CommitCells(tags, c)|
    ensures Log(CommitCells(tags, c)[..k]) == tags + [c.crc] + c.pads[..k - |tags| - 1]
  {
    var cells := CommitCells(tags, c);
    CellsAt(tags, false);
    CellsAt(c.pads, true);
    LogLength(cells[..k]);
    var es := tags + [c.crc] + c.pads[..k - |tags| - 1];
    forall i | 0 <= i < k ensures Log(cells[..k])[i] == es[i] {
    }
  }

  lemma CutMeans(log: seq<Entry>, tags: seq<Entry>, c: Commit, k: nat)
    requires ValidCommit(c) && |tags| < k <= |CommitCells(tags, c)|
    ensures LogMeaning(log + Log(CommitCells(tags, c)[..k])) == LogMeaning(log + tags)
  {
    var checks := [c.crc] + c.pads[..k - |tags| - 1];
    CutLog(tags, c, k);
    forall i | 0 <= i < |checks| ensures IsCheck(checks[i]) {
      CrcIsCheck(checks[i]);
    }
    assert log + Log(CommitCells(tags, c)[..k]) == (log + tags) + checks;
    MeaningAppend(log + tags, checks);
    ChecksMeanNothing(LogMeaning(log + tags), checks);
  }

  lemma CrcIsCheck(e: Entry)
    requires IsCrc(e.tag)
    ensures IsCheck(e) && ValidPlain(e)
  {
  }

  // ---- Pairs --------------------------------------------------------------

  function Current(p: Pair, second: bool): Block {
    if second then p.b1 else p.b0
  }

  function With(p: Pair, second: bool, b: Block): Pair {
    if second then p.(b1 := b) else p.(b0 := b)
  }

  // `second` says which block is current: it holds a commit, and the other
  // block holds none or is older.
  ghost predicate Sound(p: Pair, second: bool) {
    var cur, other := Current(p, second), Current(p, !second);
    && ValidBlock(cur) && ValidBlock(other)
    && CommitEnd(cur.cells) > 0
    && (CommitEnd(other.cells) > 0 ==> Newer(cur.rev, other.rev))
  }

  function CurrentLog(p: Pair, second: bool): seq<Entry> {
    Committed(Current(p, second).cells)
  }

  lemma NewerNotBoth(a: nat, b: nat)
    requires a < REV_MOD && b < REV_MOD && Newer(a, b)
    ensures !Newer(b, a)
  {
  }

  // A fetch finds the current block.
  lemma FetchedIs(p: Pair, second: bool)
    requires Sound(p, second)
    ensures Fetched(p) == Some(LogMeaning(CurrentLog(p, second)))
  {
    if CommitEnd(Current(p, !second).cells) > 0 {
      NewerNotBoth(Current(p, second).rev, Current(p, !second).rev);
    }
  }

  lemma NextRevNewer(rev: nat)
    requires rev < REV_MOD
    ensures Newer(NextRev(rev), rev)
  {
  }

  // ---- One commit -------------------------------------------------------------

  // The commit keeps every file named; the callers of lfs_dir_commit see to it.
  predicate Keeps(m: Meaning, c: Commit) {
    WellNamed(Intended(m, c))
  }

  // A tag a commit may write in front of its checksum
  predicate Writable(e: Entry) {
    ValidPlain(e) && !IsCrc(e.tag)
  }

  predicate AllWritable(es: seq<Entry>) {
    forall i :: 0 <= i < |es| ==> Writable(es[i])
  }

  lemma AllWritableConcat(a: seq<Entry>, b: seq<Entry>)
    requires AllWritable(a) && AllWritable(b)
    ensures AllWritable(a + b)
  {
  }

  lemma ChecksWritable(c: Commit)
    requires ValidCommit(c)
    ensures AllWritable(c.fcrc)
  {
  }

  lemma AppendTagsWritable(m: Meaning, c: Commit)
    requires ValidCommit(c) && G.Valid(m.share)
    ensures AllWritable(AppendTags(m, c))
  {
    CommitOrdinary(c);
    ChecksWritable(c);
    var share := if c.delta != G.ZERO then [ShareEntry(G.Xor(m.share, c.delta))] else [];
    AllWritableConcat(AppendedLog(c.attrs), share);
    AllWritableConcat(AppendedLog(c.attrs) + share, c.fcrc);
  }

  lemma CompactTagsWritable(log: seq<Entry>, c: Commit)
    requires ValidDisk(log) && ValidCommit(c)
    ensures AllWritable(CompactTags(log, c))
  {
    CommitOrdinary(c);
    ChecksWritable(c);
    var m := Intended(LogMeaning(log), c);
    var out := Compacted(log, c.attrs, 0, if m.count >= 0 then m.count else 0);
    CompactedPlain(log, c, if m.count >= 0 then m.count else 0);
    assert AllWritable(out);
    var tail := if m.tail != NO_TAIL then [TailEntry(m.tail)] else [];
    var share := if m.share != G.ZERO then [ShareEntry(m.share)] else [];
    AllWritableConcat(out, tail);
    AllWritableConcat(out + tail, share);
    AllWritableConcat(out + tail + share, c.fcrc);
  }

  lemma {:induction false} WindowPlainTags(xs: seq<Item>, begin: nat, end: nat)
    requires forall i :: 0 <= i < |xs| ==> PlainFileTag(xs[i].e.tag)
    ensures forall i :: 0 <= i < |Window(xs, begin, end)| ==> PlainFileTag(Window(xs, begin, end)[i].tag)
  {
    if xs != [] {
      WindowPlainTags(xs[..|xs| - 1], begin, end);
    }
  }

  predicate PlainFileTag(t: Tag) {
    IsFileTag(t) && t.typ != FROM_NOOP && !IsFrom(t.typ)
  }

  lemma {:induction false} CollectPlainTags(xs: seq<Item>)
    requires forall i :: 0 <= i < |xs| ==> ValidPlain(xs[i].e)
    ensures forall i :: 0 <= i < |Collect(xs)| ==> PlainFileTag(Collect(xs)[i].e.tag)
  {
    if xs != [] {
      TrackKeeps(xs[0], xs[1..]);
      CollectPlainTags(xs[1..]);
    }
  }

  lemma CompactedPlain(log: seq<Entry>, c: Commit, end: nat)
    requires ValidDisk(log) && ValidCommit(c) && AllOrdinary(AppendedLog(c.attrs))
    ensures forall i :: 0 <= i < |Compacted(log, c.attrs, 0, end)| ==>
              PlainFileTag(Compacted(log, c.attrs, 0, end)[i].tag)
  {
    var xs := DiskItems(log) + Flatten(c.attrs);
    CommitItemsValid(log, c.attrs);
    EntriesAt(xs);
    forall i | 0 <= i < |xs| ensures ValidPlain(xs[i].e) {
      assert xs[i].e == (log + AppendedLog(c.attrs))[i];
    }
    CollectPlainTags(xs);
    WindowPlainTags(Collect(xs), 0, end);
  }

  lemma {:induction false} EntriesAt(xs: seq<Item>)
    ensures forall i :: 0 <= i < |xs| ==> Entries(xs)[i] == xs[i].e
  {
    if xs != [] {
      EntriesAt(xs[..|xs| - 1]);
    }
  }

  // What a power loss leaves of an append cut off after k cells
  function AppendCut(p: Pair, second: bool, c: Commit, k: nat, junk: seq<Cell>): Pair
    requires G.Valid(c.delta)
    requires k <= |CommitCells(AppendTags(LogMeaning(CurrentLog(p, second)), c), c)|
  {
    var cur := Current(p, second);
    var cells := CommitCells(AppendTags(LogMeaning(CurrentLog(p, second)), c), c);
    With(p, second, Block(cur.rev, cur.cells + (cells[..k] + junk)))
  }

  // The end of a block is erased when nothing follows its last commit.
  predicate Erased(b: Block) {
    CommitEnd(b.cells) == |b.cells|
  }

  lemma LogOfAppend(cells: seq<Cell>, more: seq<Cell>)
    requires CommitEnd(cells) == |cells|
    ensures Committed(cells + more) == Log(cells) + Log(more[..CommitEnd(more)])
    ensures Committed(cells) == Log(cells)
  {
    CommitEndConcat(cells, more);
    assert (cells + more)[..|cells| + CommitEnd(more)] == cells + more[..CommitEnd(more)];
    LogConcat(cells, more[..CommitEnd(more)]);
    assert cells[..|cells|] == cells;
  }

  lemma CutValid(tags: seq<Entry>, c: Commit, k: nat)
    requires AllWritable(tags) && ValidCommit(c) && |tags| < k <= |CommitCells(tags, c)|
    ensures ValidDisk(Log(CommitCells(tags, c)[..k]))
  {
    CutLog(tags, c, k);
    forall i | 0 <= i < |c.pads| ensures ValidPlain(c.pads[i]) {
      CrcIsCheck(c.pads[i]);
    }
    CrcIsCheck(c.crc);
  }

  // What is committed in a block after a commit that was cut off
  lemma CutBlock(cells: seq<Cell>, tags: seq<Entry>, c: Commit, k: nat, junk: seq<Cell>)
    requires CommitEnd(cells) == |cells| && ValidDisk(Committed(cells))
    requires AllWritable(tags) && ValidCommit(c) && CommitEnd(junk) == 0
    requires k <= |CommitCells(tags, c)|
    ensures var after, log := cells + (CommitCells(tags, c)[..k] + junk), Committed(cells);
      && ValidDisk(Committed(after))
      && CommitEnd(after) == |cells| + (if k <= |tags| then 0 else k)
      && LogMeaning(Committed(after)) == LogMeaning(if k <= |tags| then log else log + tags)
  {
    var cut := CommitCells(tags, c);
    var more := cut[..k] + junk;
    CutCommit(tags, c, k, junk);
    CommitEndConcat(cells, more);
    LogOfAppend(cells, more);
    if k <= |tags| {
      assert more[..0] == [];
      assert Log(cells) + [] == Log(cells);
    } else {
      assert more[..k] == cut[..k];
      CutMeans(Log(cells), tags, c, k);
      CutValid(tags, c, k);
    }
  }

  // An append is atomic: cut off before its checksum it leaves the old
  // meaning, and after it the new one.
  lemma AppendAtomic(p: Pair, second: bool, c: Commit, k: nat, junk: seq<Cell>)
    requires Sound(p, second) && Erased(Current(p, second)) && ValidCommit(c) && CommitEnd(junk) == 0
    requires k <= |CommitCells(AppendTags(LogMeaning(CurrentLog(p, second)), c), c)|
    ensures var m := LogMeaning(CurrentLog(p, second));
      var q := AppendCut(p, second, c, k, junk);
      && Sound(q, second)
      && Fetched(q) == Some(if k <= |AppendTags(m, c)| then m else Intended(m, c))
  {
    var log := CurrentLog(p, second);
    var m := LogMeaning(log);
    var q := AppendCut(p, second, c, k, junk);
    AppendTagsWritable(m, c);
    CutBlock(Current(p, second).cells, AppendTags(m, c), c, k, junk);
    AppendMeans(log, c);
    FetchedIs(q, second);
  }

  // What a power loss leaves of a compaction into the other block, cut off
  // after k cells: until its checksum is written the block may have any
  // revision, and `junk` stands for whatever follows.
  function RewriteCut(p: Pair, second: bool, c: Commit, k: nat, rev: nat, junk: seq<Cell>): Pair
    requires G.Valid(c.delta)
    requires k <= |CommitCells(CompactTags(CurrentLog(p, second), c), c)|
  {
    With(p, !second, Block(rev, CommitCells(CompactTags(CurrentLog(p, second), c), c)[..k] + junk))
  }

  // A compaction is atomic, too; once its checksum is written the other block
  // has become the current one.
  lemma RewriteAtomic(p: Pair, second: bool, c: Commit, k: nat, rev: nat, junk: seq<Cell>)
    requires Sound(p, second) && ValidCommit(c) && CommitEnd(junk) == 0
    requires Keeps(LogMeaning(CurrentLog(p, second)), c)
    requires k <= |CommitCells(CompactTags(CurrentLog(p, second), c), c)| && rev < REV_MOD
    requires k > |CompactTags(CurrentLog(p, second), c)| ==> rev == NextRev(Current(p, second).rev)
    ensures var m := LogMeaning(CurrentLog(p, second));
      var done := k > |CompactTags(CurrentLog(p, second), c)|;
      var q := RewriteCut(p, second, c, k, rev, junk);
      && Sound(q, if done then !second else second)
      && Fetched(q) == Some(if done then Intended(m, c) else m)
  {
    var log := CurrentLog(p, second);
    var tags := CompactTags(log, c);
    CompactTagsWritable(log, c);
    RewrittenBlock(tags, c, k, junk);
    CompactMeans(log, c);
    RewriteSound(p, second, Block(rev, CommitCells(tags, c)[..k] + junk), k > |tags|);
  }

  // A block written next to the current one takes over if it is one revision
  // ahead and holds a commit, and is passed over if it holds none.
  lemma RewriteSound(p: Pair, second: bool, b: Block, done: bool)
    requires Sound(p, second) && ValidBlock(b)
    requires CommitEnd(b.cells) > 0 <==> done
    requires done ==> b.rev == NextRev(Current(p, second).rev)
    ensures var q := With(p, !second, b);
      && Sound(q, if done then !second else second)
      && Fetched(q) == Some(LogMeaning(if done then Committed(b.cells) else CurrentLog(p, second)))
  {
    var q := With(p, !second, b);
    NextRevNewer(Current(p, second).rev);
    FetchedIs(q, if done then !second else second);
  }

  lemma RewrittenBlock(tags: seq<Entry>, c: Commit, k: nat, junk: seq<Cell>)
    requires AllWritable(tags) && ValidCommit(c) && CommitEnd(junk) == 0
    requires k <= |CommitCells(tags, c)|
    ensures var after := CommitCells(tags, c)[..k] + junk;
      && ValidDisk(Committed(after))
      && CommitEnd(after) == (if k <= |tags| then 0 else k)
      && (k > |tags| ==> LogMeaning(Committed(after)) == LogMeaning(tags))
  {
    var after := CommitCells(tags, c)[..k] + junk;
    CutBlock([], tags, c, k, junk);
    assert [] + after == after;
    assert Committed([]) == [] && [] + tags == tags;
  }

  // ---- Any number of commits ----------------------------------------------------

  // A commit attempted on the pair and the point up to which it got
  datatype Event =
    | AppendEvent(c: Commit, k: nat, junk: seq<Cell>)
    | RewriteEvent(c: Commit, k: nat, rev: nat, junk: seq<Cell>)

  function EventTags(p: Pair, second: bool, e: Event): seq<Entry>
    requires ValidCommit(e.c)
  {
    var log := CurrentLog(p, second);
    if e.AppendEvent? then AppendTags(LogMeaning(log), e.c) else CompactTags(log, e.c)
  }

  ghost predicate Enabled(p: Pair, second: bool, e: Event) {
    && ValidCommit(e.c) && CommitEnd(e.junk) == 0
    && Keeps(LogMeaning(CurrentLog(p, second)), e.c)
    && e.k <= |CommitCells(EventTags(p, second, e), e.c)|
    && (e.AppendEvent? ==> Erased(Current(p, second)))
    && (e.RewriteEvent? ==> e.rev < REV_MOD)
    && (e.RewriteEvent? && Took(p, second, e) ==> e.rev == NextRev(Current(p, second).rev))
  }

  // Did the attempt get past its checksum?
  predicate Took(p: Pair, second: bool, e: Event)
    requires ValidCommit(e.c)
  {
    e.k > |EventTags(p, second, e)|
  }

  // Was the attempt carried out in full?
  predicate Completed(p: Pair, second: bool, e: Event)
    requires ValidCommit(e.c)
  {
    e.k == |CommitCells(EventTags(p, second, e), e.c)|
  }

  function Next(p: Pair, second: bool, e: Event): Pair
    requires ValidCommit(e.c) && e.k <= |CommitCells(EventTags(p, second, e), e.c)|
  {
    match e
    case AppendEvent(c, k, junk) => AppendCut(p, second, c, k, junk)
    case RewriteEvent(c, k, rev, junk) => RewriteCut(p, second, c, k, rev, junk)
  }

  predicate NextSecond(p: Pair, second: bool, e: Event)
    requires ValidCommit(e.c)
  {
    if e.RewriteEvent? && Took(p, second, e) then !second else second
  }

  ghost predicate RunOk(p: Pair, second: bool, run: seq<Event>)
    decreases |run|
  {
    run == [] || (Enabled(p, second, run[0])
                  && RunOk(Next(p, second, run[0]), NextSecond(p, second, run[0]), run[1..]))
  }

  ghost function Final(p: Pair, second: bool, run: seq<Event>): Pair
    requires RunOk(p, second, run)
    decreases |run|
  {
    if run == [] then p
    else Final(Next(p, second, run[0]), NextSecond(p, second, run[0]), run[1..])
  }

  // The commits marked in `kept`, one after the other
  function Fold(m: Meaning, run: seq<Event>, kept: seq<bool>): Meaning
    requires |kept| == |run|
    decreases |run|
  {
    if run == [] then m
    else Fold(if kept[0] then Intended(m, run[0].c) else m, run[1..], kept[1..])
  }

  // Every attempt carried out in full is marked.
  ghost predicate KeepsCompleted(p: Pair, second: bool, run: seq<Event>, kept: seq<bool>)
    requires RunOk(p, second, run) && |kept| == |run|
    decreases |run|
  {
    run == [] ||
    ((Completed(p, second, run[0]) ==> kept[0])
     && KeepsCompleted(Next(p, second, run[0]), NextSecond(p, second, run[0]), run[1..], kept[1..]))
  }

  lemma EventAtomic(p: Pair, second: bool, e: Event)
    requires Sound(p, second) && Enabled(p, second, e)
    ensures var m := LogMeaning(CurrentLog(p, second));
      && Sound(Next(p, second, e), NextSecond(p, second, e))
      && Fetched(Next(p, second, e)) == Some(if Took(p, second, e) then Intended(m, e.c) else m)
      && (Completed(p, second, e) ==> Took(p, second, e))
  {
    match e {
      case AppendEvent(c, k, junk) => AppendAtomic(p, second, c, k, junk);
      case RewriteEvent(c, k, rev, junk) => RewriteAtomic(p, second, c, k, rev, junk);
    }
  }

  // Whatever commits are attempted and wherever each is cut off, what is
  // fetched in the end is some of the commits applied in order, each of them
  // whole, with every commit that was carried out among them.
  lemma {:induction false} RunsAreAtomic(p: Pair, second: bool, run: seq<Event>) returns (kept: seq<bool>)
    requires Sound(p, second) && RunOk(p, second, run)
    ensures |kept| == |run| && KeepsCompleted(p, second, run, kept)
    ensures Fetched(Final(p, second, run)) == Some(Fold(LogMeaning(CurrentLog(p, second)), run, kept))
    decreases |run|
  {
    if run == [] {
      FetchedIs(p, second);
      kept := [];
    } else {
      var q, next := Next(p, second, run[0]), NextSecond(p, second, run[0]);
      EventAtomic(p, second, run[0]);
      FetchedIs(q, next);
      hide Next, NextSecond, Took, Completed, Intended, Sound, Fetched;
      var rest := RunsAreAtomic(q, next, run[1..]);
      kept := [Took(p, second, run[0])] + rest;
      assert kept[1..] == rest;
    }
  }
}
