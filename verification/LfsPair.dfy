// A metadata pair on a device: fetching it, and committing to it one tag at a
// time with every intermediate state recorded.

module LfsPair {
  import opened Bytes
  import opened Options
  import opened Sequences
  import opened LfsLog
  import opened LfsTraverse
  import opened LfsCompact
  import opened LfsMeaning
  import opened LfsCommit
  import opened LfsCrash
  import G = LfsGstate
  import Chain = LfsChain
  import Lookup = LfsGet

  // ---- Fetching ------------------------------------------------------------

  // What a fetch learns about a block
  datatype Fetch = Fetch(end: nat, count: int, hard: bool, pair: seq<byte>)

  const NULL_PAIR: seq<byte> := NULL_BLOCK + NULL_BLOCK

  // The tail as lfs_dir_fetchmatch keeps it, before looking at null pairs
  function RawTail(globals: map<nat, Value>): (bool, seq<byte>) {
    match Get(globals, TYPE_TAIL)
    case None => (false, NULL_PAIR)
    case Some(v) => (v.typ % 2 == 1, v.data)
  }

  function Canonical(hard: bool, pair: seq<byte>): Tail {
    if IsNullPair(pair) then NO_TAIL else Tail(hard, pair)
  }

  lemma CanonicalRaw(globals: map<nat, Value>)
    ensures Canonical(RawTail(globals).0, RawTail(globals).1) == TailOf(globals)
  {
    assert NULL_PAIR[..4] == NULL_BLOCK;
  }

  // No committed tag deletes the tail.
  predicate KeepsTail(cells: seq<Cell>) {
    forall i :: 0 <= i < CommitEnd(cells) ==> !(Type1(cells[i].e.tag.typ) == TYPE_TAIL && IsDelete(cells[i].e.tag))
  }

  function Prefix(cells: seq<Cell>, i: nat): Dir
    requires i <= |cells|
  {
    Replay(Log(cells[..i]))
  }

  lemma PrefixStep(cells: seq<Cell>, i: nat)
    requires i < |cells|
    ensures Prefix(cells, i + 1) == Apply(Prefix(cells, i), cells[i].e)
  {
    assert cells[..i + 1][..i] == cells[..i];
    var log := Log(cells[..i]);
    ReplaySnoc(log, cells[i].e);
  }

  lemma {:induction false} CommitEndScan(cells: seq<Cell>, i: nat, end: nat)
    requires end <= i <= |cells|
    requires CommitEnd(cells[..i]) == end
    requires forall j :: 0 <= j < i && IsCrc(cells[j].e.tag) ==> cells[j].ok
    ensures i == |cells| ==> CommitEnd(cells) == end
    ensures i < |cells| && IsCrc(cells[i].e.tag) && !cells[i].ok ==> CommitEnd(cells) == end
    ensures i < |cells| && IsCrc(cells[i].e.tag) && cells[i].ok ==> CommitEnd(cells[..i + 1]) == i + 1
    ensures i < |cells| && !IsCrc(cells[i].e.tag) ==> CommitEnd(cells[..i + 1]) == end
  {
    assert cells[..|cells|] == cells;
    if i < |cells| {
      var one := [cells[i]];
      assert cells[..i + 1] == cells[..i] + one;
      assert one[1..] == [];
      CommitEndAfter(cells[..i], one);
      if IsCrc(cells[i].e.tag) && !cells[i].ok {
        assert cells == cells[..i] + cells[i..];
        CommitEndAfter(cells[..i], cells[i..]);
      }
    }
  }

  // Cells whose checksums all validate do not hide what follows.
  lemma {:induction false} CommitEndAfter(a: seq<Cell>, b: seq<Cell>)
    requires forall j :: 0 <= j < |a| && IsCrc(a[j].e.tag) ==> a[j].ok
    ensures CommitEnd(a + b) == if CommitEnd(b) > 0 then |a| + CommitEnd(b) else CommitEnd(a)
  {
    if a == [] {
      assert a + b == b;
    } else {
      assert (a + b)[1..] == a[1..] + b;
      CommitEndAfter(a[1..], b);
    }
  }

  // The checksums met so far validate and the last of them ends at `end`.
  predicate Scanned(cells: seq<Cell>, i: nat, end: nat) {
    && end <= i <= |cells|
    && CommitEnd(cells[..i]) == end
    && forall j :: 0 <= j < i && IsCrc(cells[j].e.tag) ==> cells[j].ok
  }

  // What the tags of the first n cells say
  predicate Learned(cells: seq<Cell>, n: nat, count: int, hard: bool, pair: seq<byte>) {
    && n <= |cells|
    && count == Prefix(cells, n).count
    && (hard, pair) == RawTail(Prefix(cells, n).globals)
  }

  lemma ScanStarts(cells: seq<Cell>)
    ensures Scanned(cells, 0, 0) && Learned(cells, 0, 0, false, NULL_PAIR)
  {
    assert cells[..0] == [];
  }

  lemma ScanStep(cells: seq<Cell>, i: nat, end: nat)
    requires Scanned(cells, i, end)
    ensures i == |cells| ==> CommitEnd(cells) == end
    ensures i < |cells| && IsCrc(cells[i].e.tag) && !cells[i].ok ==> CommitEnd(cells) == end
    ensures i < |cells| && IsCrc(cells[i].e.tag) && cells[i].ok ==>
              Scanned(cells, i + 1, i + 1) && i + 1 <= CommitEnd(cells)
    ensures i < |cells| && !IsCrc(cells[i].e.tag) ==> Scanned(cells, i + 1, end)
  {
    hide CommitEnd, IsCrc;
    CommitEndScan(cells, i, end);
    if i < |cells| && IsCrc(cells[i].e.tag) && cells[i].ok {
      assert cells == cells[..i + 1] + cells[i + 1..];
      CommitEndAfter(cells[..i + 1], cells[i + 1..]);
    }
  }

  lemma FetchedMeaning(cells: seq<Cell>, f: Fetch)
    requires f.end == CommitEnd(cells) && Learned(cells, f.end, f.count, f.hard, f.pair)
    ensures f.count == LogMeaning(Committed(cells)).count
    ensures Canonical(f.hard, f.pair) == LogMeaning(Committed(cells)).tail
  {
    CanonicalRaw(Prefix(cells, f.end).globals);
  }

  // The inner loop of lfs_dir_fetchmatch: scan one block up to its last
  // validating commit.
  method FetchBlock(cells: seq<Cell>) returns (f: Fetch)
    requires KeepsTail(cells)
    ensures f.end == CommitEnd(cells)
    ensures f.end > 0 ==> f.count == LogMeaning(Committed(cells)).count
    ensures f.end > 0 ==> Canonical(f.hard, f.pair) == LogMeaning(Committed(cells)).tail
  {
    hide CommitEnd, Scanned, Learned, Canonical, LogMeaning, Committed;
    ScanStarts(cells);
    f := Fetch(0, 0, false, NULL_PAIR);
    var tempcount: int, temphard, temppair := 0, false, NULL_PAIR;
    var i: nat := 0;
    while i < |cells|
      invariant i <= |cells|
      invariant Scanned(cells, i, f.end)
      invariant i <= CommitEnd(cells) ==> Learned(cells, i, tempcount, temphard, temppair)
      invariant f.end > 0 ==> Learned(cells, f.end, f.count, f.hard, f.pair)
    {
      var crc := IsCrc(cells[i].e.tag);
      ScanStep(cells, i, f.end);
      if crc && !cells[i].ok {
        break;
      }
      tempcount, temphard, temppair :=
        FetchTag(cells[i].e.tag, cells[i].e.data, tempcount, temphard, temppair, cells, i);
      i := i + 1;
      if crc {
        f := Fetch(i, tempcount, temphard, temppair);
      }
    }
    ScanStep(cells, i, f.end);
    if f.end > 0 {
      FetchedMeaning(cells, f);
    }
  }

  // One tag of the scan; `data` matters only for a tail.
  method FetchTag(tag: Tag, data: seq<byte>, count: int, hard: bool, pair: seq<byte>,
                  ghost cells: seq<Cell>, ghost i: nat)
    returns (count': int, hard': bool, pair': seq<byte>)
    requires i < |cells| && KeepsTail(cells)
    requires tag == cells[i].e.tag
    requires i < CommitEnd(cells) && Type1(tag.typ) == TYPE_TAIL ==> data == cells[i].e.data
    requires i < CommitEnd(cells) ==> Learned(cells, i, count, hard, pair)
    ensures i < CommitEnd(cells) ==> Learned(cells, i + 1, count', hard', pair')
  {
    PrefixStep(cells, i);
    hide Prefix, CommitEnd;
    count', hard', pair' := count, hard, pair;
    if Type1(tag.typ) == TYPE_NAME {
      // a name makes room for its file
      if tag.id >= count {
        count' := tag.id + 1;
      }
    } else if IsSplice(tag) {
      count' := count + Splice(tag);
    } else if Type1(tag.typ) == TYPE_TAIL {
      hard', pair' := tag.typ % 2 == 1, data;
    }
  }

  // lfs_dir_fetch: the block that looks newer, and failing that the other one
  method FetchPair(p: Pair) returns (second: bool, f: Fetch)
    requires KeepsTail(p.b0.cells) && KeepsTail(p.b1.cells)
    ensures Fetched(p).Some? <==> f.end > 0
    ensures Fetched(p).Some? ==>
              && Fetched(p).value == LogMeaning(CurrentLog(p, second))
              && f.end == CommitEnd(Current(p, second).cells)
              && f.count == Fetched(p).value.count && Canonical(f.hard, f.pair) == Fetched(p).value.tail
  {
    second := Newer(p.b1.rev, p.b0.rev);
    f := FetchBlock(Current(p, second).cells);
    if f.end == 0 {
      // no commit here
      second := !second;
      f := FetchBlock(Current(p, second).cells);
    }
  }

  // ---- Committing ---------------------------------------------------------------

  // Whatever a power loss in state t leaves of the block being written is
  // fetched as the old or as the new meaning.  Until the block holds a commit
  // its revision cannot be relied on.
  ghost predicate Safe(t: Pair, writing: bool, before: Meaning, after: Meaning) {
    var b := Current(t, writing);
    forall rev: nat, junk {:trigger Block(rev, b.cells + junk)} ::
      rev < REV_MOD && CommitEnd(junk) == 0 && (CommitEnd(b.cells) > 0 ==> rev == b.rev) ==>
        var f := Fetched(With(t, writing, Block(rev, b.cells + junk)));
        f == Some(before) || f == Some(after)
  }

  // lfs_dir_getgstate: the newest move state of the pair, added to g
  method GetGstate(log: seq<Entry>, g: G.GState) returns (sum: G.GState)
    requires ValidDisk(log) && G.Valid(g)
    ensures sum == G.Xor(g, LogMeaning(log).share)
  {
    var q := Lookup.OfPair(TYPE_MOVESTATE);
    ShareScan(log);
    hide LogMeaning, ValidDisk;
    var k: nat := |log|;
    while k > 0
      invariant k <= |log| && Lookup.Scan(log, k, q) == Lookup.Scan(log, |log|, q)
    {
      var e := log[k - 1];
      if ClassOf(e.tag.typ) == TYPE_MOVESTATE {
        if IsDelete(e.tag) {
          break;
        }
        G.XorComm(g, G.Decode(e.data));
        return G.Xor(g, G.Decode(e.data));
      }
      k := k - 1;
    }
    G.XorSelf(g);
    return g;
  }

  // What the newest move state says is the pair's share.
  lemma ShareScan(log: seq<Entry>)
    requires ValidDisk(log)
    ensures var found := Lookup.Scan(log, |log|, Lookup.OfPair(TYPE_MOVESTATE));
      LogMeaning(log).share == if found.Some? then G.Decode(found.value.data) else G.ZERO
  {
    assert log[..|log|] == log;
    Lookup.ScanIsReplay(log, |log|, Lookup.OfPair(TYPE_MOVESTATE));
  }

  // The tags an appended commit puts in front of its checksum
  method AppendTagList(log: seq<Entry>, c: Commit) returns (tags: seq<Entry>)
    requires ValidDisk(log) && ValidCommit(c)
    ensures tags == AppendTags(LogMeaning(log), c)
  {
    tags := TraverseAttrs(c.attrs);
    hide LogMeaning, AppendedLog;
    if c.delta != G.ZERO {
      var sum := GetGstate(log, c.delta);
      G.XorComm(c.delta, LogMeaning(log).share);
      tags := tags + [ShareEntry(sum)];
    }
    tags := tags + c.fcrc;
  }

  // lfs_dir_traverse over attributes alone, without a filter
  method TraverseAttrs(attrs: seq<Attr>) returns (out: seq<Entry>)
    requires ValidAttrs(attrs)
    ensures out == AppendedLog(attrs)
  {
    out := [];
    var j: nat := 0;
    ghost var whole := AppendedLog(attrs);
    assert attrs[0..] == attrs;
    while j < |attrs|
      invariant j <= |attrs|
      invariant out + AppendedLog(attrs[j..]) == whole
    {
      assert attrs[j..][1..] == attrs[j + 1..];
      AtOwnId(attrs[j]);
      var part := Pass(attrs[j], LeadTag(attrs[j]).id);
      EntriesConcat(AttrItems(attrs[j]), Flatten(attrs[j + 1..]));
      j := j + 1;
      SeqAssoc(out, part, AppendedLog(attrs[j..]));
      out := out + part;
    }
    assert attrs[j..] == [];
  }

  lemma AtOwnId(a: Attr)
    ensures ItemsAt(a, LeadTag(a).id) == AttrItems(a)
  {
  }

  class PairDevice {
    var pair: Pair
    // every state the pair has gone through
    ghost var trace: seq<Pair>

    // Program tags one after the other.
    method Program(second: bool, cells: seq<Cell>)
      modifies this
      ensures pair == With(old(pair), second, Extended(old(Current(pair, second)), cells))
      ensures old(trace) <= trace
      ensures Programmed(trace, |old(trace)|, old(pair), second, old(Current(pair, second)), cells)
    {
      ghost var p, n := pair, |trace|;
      var b := Current(pair, second);
      var i: nat := 0;
      assert b.cells + cells[..0] == b.cells;
      while i < |cells|
        invariant i <= |cells|
        invariant pair == With(p, second, Extended(b, cells[..i]))
        invariant |trace| == n + i && old(trace) <= trace
        invariant forall j :: n <= j < n + i ==> trace[j] == With(p, second, Extended(b, cells[..j - n + 1]))
      {
        assert b.cells + cells[..i + 1] == (b.cells + cells[..i]) + [cells[i]];
        pair := With(pair, second, Extended(Current(pair, second), [cells[i]]));
        trace := trace + [pair];
        i := i + 1;
      }
      assert cells[..i] == cells;
    }

    // Erase a block, write its revision and program its tags.
    method Rewrite(second: bool, rev: nat, cells: seq<Cell>)
      modifies this
      ensures pair == With(old(pair), second, Block(rev, cells))
      ensures old(trace) <= trace && |trace| > |old(trace)|
      ensures trace[|old(trace)|] == With(old(pair), second, Block(rev, []))
      ensures Programmed(trace, |old(trace)| + 1, old(pair), second, Block(rev, []), cells)
    {
      WithTwice(pair, second, Block(rev, []), Block(rev, cells));
      pair := With(pair, second, Block(rev, []));
      trace := trace + [pair];
      Program(second, cells);
      assert [] + cells == cells;
    }
  }

  lemma WithTwice(p: Pair, second: bool, a: Block, b: Block)
    ensures With(With(p, second, a), second, b) == With(p, second, b)
    ensures Current(With(p, second, a), second) == a
  {
  }

  // All states of the trace from `start` on, each the initial pair with more
  // tags in one block
  ghost predicate Programmed(trace: seq<Pair>, start: nat, p: Pair, second: bool, b: Block, cells: seq<Cell>) {
    && |trace| == start + |cells|
    && forall i :: start <= i < |trace| ==> trace[i] == With(p, second, Extended(b, cells[..i - start + 1]))
  }

  function Extended(b: Block, cells: seq<Cell>): Block {
    Block(b.rev, b.cells + cells)
  }

  lemma SafeAppend(p: Pair, second: bool, c: Commit, k: nat)
    requires Sound(p, second) && Erased(Current(p, second)) && ValidCommit(c)
    requires k <= |CommitCells(AppendTags(LogMeaning(CurrentLog(p, second)), c), c)|
    ensures var m := LogMeaning(CurrentLog(p, second));
      var cells := CommitCells(AppendTags(m, c), c);
      Safe(With(p, second, Extended(Current(p, second), cells[..k])), second, m, Intended(m, c))
  {
    var m := LogMeaning(CurrentLog(p, second));
    var cut := CommitCells(AppendTags(m, c), c)[..k];
    var b := Extended(Current(p, second), cut);
    AppendTagsWritable(m, c);
    CutBlock(Current(p, second).cells, AppendTags(m, c), c, k, []);
    assert cut + [] == cut;
    assert CommitEnd(b.cells) > 0;
    hide AppendTags, CommitCells, Cells, Sound, Intended, Fetched, CommitEnd;
    forall rev: nat, junk | rev < REV_MOD && CommitEnd(junk) == 0 && (CommitEnd(b.cells) > 0 ==> rev == b.rev)
      ensures var f := Fetched(With(With(p, second, b), second, Block(rev, b.cells + junk)));
        f == Some(m) || f == Some(Intended(m, c))
    {
      AppendAtomic(p, second, c, k, junk);
      TornAppend(p, second, cut, junk);
    }
  }

  lemma TornAppend(p: Pair, second: bool, cut: seq<Cell>, junk: seq<Cell>)
    ensures var b := Extended(Current(p, second), cut);
      With(With(p, second, b), second, Block(b.rev, b.cells + junk)) ==
      With(p, second, Block(b.rev, Current(p, second).cells + (cut + junk)))
  {
    SeqAssoc(Current(p, second).cells, cut, junk);
  }

  lemma SafeRewrite(p: Pair, second: bool, c: Commit, k: nat)
    requires Sound(p, second) && ValidCommit(c) && Keeps(LogMeaning(CurrentLog(p, second)), c)
    requires k <= |CommitCells(CompactTags(CurrentLog(p, second), c), c)|
    ensures var m := LogMeaning(CurrentLog(p, second));
      var cells := CommitCells(CompactTags(CurrentLog(p, second), c), c);
      Safe(With(p, !second, Block(NextRev(Current(p, second).rev), cells[..k])), !second, m, Intended(m, c))
  {
    var log := CurrentLog(p, second);
    var m := LogMeaning(log);
    var cut := CommitCells(CompactTags(log, c), c)[..k];
    var b := Block(NextRev(Current(p, second).rev), cut);
    CompactTagsWritable(log, c);
    RewrittenBlock(CompactTags(log, c), c, k, []);
    assert cut + [] == cut;
    forall rev: nat, junk | rev < REV_MOD && CommitEnd(junk) == 0 && (CommitEnd(b.cells) > 0 ==> rev == b.rev)
      ensures var f := Fetched(With(With(p, !second, b), !second, Block(rev, b.cells + junk)));
        f == Some(m) || f == Some(Intended(m, c))
    {
      RewriteAtomic(p, second, c, k, rev, junk);
    }
  }

  // How many of the tags fit into `room` bytes, one after the other
  method Fitting(tags: seq<Entry>, room: nat) returns (n: nat)
    ensures n <= |tags| && Chain.TotalSize(tags[..n]) <= room
    ensures n < |tags| ==> Chain.TotalSize(tags[..n + 1]) > room
    ensures n == |tags| <==> Chain.TotalSize(tags) <= room
  {
    n := 0;
    var left: nat := room;
    while n < |tags| && Chain.DSize(tags[n].tag) <= left
      invariant n <= |tags| && Chain.TotalSize(tags[..n]) + left == room
    {
      assert tags[..n + 1][..n] == tags[..n];
      left := left - Chain.DSize(tags[n].tag);
      n := n + 1;
    }
    if n < |tags| {
      assert tags[..n + 1][..n] == tags[..n];
      Chain.SizeAtLeast(tags, n + 1);
    } else {
      assert tags[..n] == tags;
    }
  }

  // All states from `start` on are safe while the given block is written.
  ghost predicate AllSafe(trace: seq<Pair>, start: nat, writing: bool, before: Meaning, after: Meaning) {
    forall i :: start <= i < |trace| ==> Safe(trace[i], writing, before, after)
  }

  lemma AppendIsSafe(trace: seq<Pair>, start: nat, p: Pair, second: bool, c: Commit, k: nat,
                     m: Meaning, after: Meaning, cells: seq<Cell>)
    requires Sound(p, second) && Erased(Current(p, second)) && ValidCommit(c)
    requires m == LogMeaning(CurrentLog(p, second)) && after == Intended(m, c)
    requires cells == CommitCells(AppendTags(m, c), c) && k <= |cells|
    requires Programmed(trace, start, p, second, Current(p, second), cells[..k])
    ensures AllSafe(trace, start, second, m, after)
  {
    hide Safe, Intended, AppendTags, CommitCells, Sound, ValidCommit, Erased, LogMeaning, CurrentLog;
    forall i | start <= i < |trace| ensures Safe(trace[i], second, m, after) {
      assert cells[..k][..i - start + 1] == cells[..i - start + 1];
      SafeAppend(p, second, c, i - start + 1);
    }
  }

  lemma AppendEnds(p: Pair, second: bool, c: Commit, k: nat, m: Meaning, cells: seq<Cell>)
    requires Sound(p, second) && Erased(Current(p, second)) && ValidCommit(c)
    requires m == LogMeaning(CurrentLog(p, second))
    requires cells == CommitCells(AppendTags(m, c), c) && k <= |cells|
    ensures var q := With(p, second, Extended(Current(p, second), cells[..k]));
      && Sound(q, second)
      && LogMeaning(CurrentLog(q, second)) == if k <= |AppendTags(m, c)| then m else Intended(m, c)
  {
    AppendAtomic(p, second, c, k, []);
    assert cells[..k] + [] == cells[..k];
    FetchedIs(AppendCut(p, second, c, k, []), second);
  }

  lemma RewriteIsSafe(trace: seq<Pair>, start: nat, p: Pair, second: bool, c: Commit,
                      m: Meaning, after: Meaning, rev: nat, cells: seq<Cell>)
    requires Sound(p, second) && ValidCommit(c) && Keeps(m, c)
    requires m == LogMeaning(CurrentLog(p, second)) && after == Intended(m, c)
    requires rev == NextRev(Current(p, second).rev)
    requires cells == CommitCells(CompactTags(CurrentLog(p, second), c), c)
    requires Programmed(trace, start, p, !second, Block(rev, []), cells)
    ensures AllSafe(trace, start, !second, m, after)
  {
    hide Safe, Intended, CompactTags, CommitCells, Sound, ValidCommit, Keeps, LogMeaning, CurrentLog;
    forall i | start <= i < |trace| ensures Safe(trace[i], !second, m, after) {
      assert [] + cells[..i - start + 1] == cells[..i - start + 1];
      SafeRewrite(p, second, c, i - start + 1);
    }
  }

  lemma RewriteStartsSafe(p: Pair, second: bool, c: Commit, m: Meaning, after: Meaning, rev: nat)
    requires Sound(p, second) && ValidCommit(c) && Keeps(m, c)
    requires m == LogMeaning(CurrentLog(p, second)) && after == Intended(m, c)
    requires rev == NextRev(Current(p, second).rev)
    ensures Safe(With(p, !second, Block(rev, [])), !second, m, after)
  {
    SafeRewrite(p, second, c, 0);
    assert CommitCells(CompactTags(CurrentLog(p, second), c), c)[..0] == [];
  }

  lemma CellsMore(tags: seq<Entry>, c: Commit)
    ensures |CommitCells(tags, c)| > |tags|
  {
  }

  lemma NextRevSmall(rev: nat)
    ensures NextRev(rev) < REV_MOD
  {
  }

  lemma RewriteEnds(p: Pair, second: bool, c: Commit, m: Meaning, rev: nat, cells: seq<Cell>)
    requires Sound(p, second) && ValidCommit(c) && Keeps(m, c)
    requires m == LogMeaning(CurrentLog(p, second)) && rev == NextRev(Current(p, second).rev)
    requires cells == CommitCells(CompactTags(CurrentLog(p, second), c), c)
    ensures var q := With(p, !second, Block(rev, cells));
      Sound(q, !second) && LogMeaning(CurrentLog(q, !second)) == Intended(m, c)
  {
    assert G.Valid(c.delta);
    hide Sound, Intended, CompactTags, CommitCells, LogMeaning, CurrentLog, Keeps, ValidCommit, Fetched, NextRev;
    CellsMore(CompactTags(CurrentLog(p, second), c), c);
    NextRevSmall(Current(p, second).rev);
    RewriteAtomic(p, second, c, |cells|, rev, []);
    assert cells[..|cells|] + [] == cells;
    FetchedIs(RewriteCut(p, second, c, |cells|, rev, []), !second);
  }

  // lfs_dir_relocatingcommit on a pair that is neither split nor relocated:
  // append behind the last commit if that part of the block is erased and the
  // tags fit, and compact into the other block otherwise.
  method RelocatingCommit(dev: PairDevice, second: bool, erased: bool, room: nat, c: Commit)
    returns (second': bool)
    requires Sound(dev.pair, second) && ValidCommit(c)
    requires erased ==> Erased(Current(dev.pair, second))
    requires Keeps(LogMeaning(CurrentLog(dev.pair, second)), c)
    modifies dev
    ensures Sound(dev.pair, second') && old(dev.trace) <= dev.trace
    ensures second' == second <==>
            erased && Chain.TotalSize(AppendTags(LogMeaning(old(CurrentLog(dev.pair, second))), c)) <= room
    ensures var before := LogMeaning(old(CurrentLog(dev.pair, second)));
      && Fetched(dev.pair) == Some(Intended(before, c))
      && LogMeaning(CurrentLog(dev.pair, second')) == Intended(before, c)
      && forall i :: |old(dev.trace)| <= i < |dev.trace| ==>
           Safe(dev.trace[i], second, before, Intended(before, c)) ||
             Safe(dev.trace[i], !second, before, Intended(before, c))
  {
    hide Sound, Intended, Fetched, Keeps, Safe, LogMeaning, CurrentLog, ValidCommit, Erased;
    if erased {
      var ok := TryAppend(dev, second, room, c);
      if ok {
        FetchedIs(dev.pair, second);
        return second;
      }
    }
    CompactInto(dev, second, c);
    FetchedIs(dev.pair, !second);
    return !second;
  }

  // Append the commit, or as many of its tags as fit.
  method TryAppend(dev: PairDevice, second: bool, room: nat, c: Commit) returns (ok: bool)
    requires Sound(dev.pair, second) && Erased(Current(dev.pair, second)) && ValidCommit(c)
    modifies dev
    ensures Sound(dev.pair, second) && old(dev.trace) <= dev.trace
    ensures ok <==> Chain.TotalSize(AppendTags(LogMeaning(old(CurrentLog(dev.pair, second))), c)) <= room
    ensures var before := LogMeaning(old(CurrentLog(dev.pair, second)));
      && LogMeaning(CurrentLog(dev.pair, second)) == (if ok then Intended(before, c) else before)
      && AllSafe(dev.trace, |old(dev.trace)|, second, before, Intended(before, c))
  {
    ghost var p, start := dev.pair, |dev.trace|;
    ghost var m := LogMeaning(CurrentLog(dev.pair, second));
    var tags := AppendTagList(CurrentLog(dev.pair, second), c);
    var n := Fitting(tags, room);
    ok := n == |tags|;
    var cells := CommitCells(tags, c);
    var k := if ok then |cells| else n;
    assert |cells| > |tags|;
    ghost var after := Intended(m, c);
    hide Sound, Intended, AllSafe, LogMeaning, CurrentLog, ValidCommit, Erased, CommitCells, AppendTags;
    dev.Program(second, cells[..k]);
    AppendIsSafe(dev.trace, start, p, second, c, k, m, after, cells);
    AppendEnds(p, second, c, k, m, cells);
  }

  // lfs_dir_compact into the other block
  method CompactInto(dev: PairDevice, second: bool, c: Commit)
    requires Sound(dev.pair, second) && ValidCommit(c)
    requires Keeps(LogMeaning(CurrentLog(dev.pair, second)), c)
    modifies dev
    ensures Sound(dev.pair, !second) && old(dev.trace) <= dev.trace
    ensures var before := LogMeaning(old(CurrentLog(dev.pair, second)));
      && LogMeaning(CurrentLog(dev.pair, !second)) == Intended(before, c)
      && AllSafe(dev.trace, |old(dev.trace)|, !second, before, Intended(before, c))
  {
    hide *;
    SoundLog(dev.pair, second);
    var rev := NextRev(Current(dev.pair, second).rev);
    ghost var p, start := dev.pair, |dev.trace|;
    var log := CurrentLog(dev.pair, second);
    var tags := CompactTagList(log, c);
    var cells := CommitCells(tags, c);
    dev.Rewrite(!second, rev, cells);
    RewriteDone(dev.trace, start, p, second, c, rev, cells, dev.pair);
  }

  lemma RewriteDone(trace: seq<Pair>, start: nat, p: Pair, second: bool, c: Commit, rev: nat, cells: seq<Cell>, q: Pair)
    requires Sound(p, second) && ValidCommit(c) && Keeps(LogMeaning(CurrentLog(p, second)), c)
    requires rev == NextRev(Current(p, second).rev)
    requires cells == CommitCells(CompactTags(CurrentLog(p, second), c), c)
    requires |trace| > start && trace[start] == With(p, !second, Block(rev, []))
    requires Programmed(trace, start + 1, p, !second, Block(rev, []), cells) && q == With(p, !second, Block(rev, cells))
    ensures var m := LogMeaning(CurrentLog(p, second));
      && Sound(q, !second) && LogMeaning(CurrentLog(q, !second)) == Intended(m, c)
      && AllSafe(trace, start, !second, m, Intended(m, c))
  {
    hide *;
    RewriteTrace(trace, start, p, second, c, rev, cells);
    RewriteEnds(p, second, c, LogMeaning(CurrentLog(p, second)), rev, cells);
  }

  lemma SoundLog(p: Pair, second: bool)
    requires Sound(p, second)
    ensures ValidDisk(CurrentLog(p, second))
  {
    hide CommitEnd, Committed, ValidDisk;
  }

  lemma RewriteTrace(trace: seq<Pair>, start: nat, p: Pair, second: bool, c: Commit, rev: nat, cells: seq<Cell>)
    requires Sound(p, second) && ValidCommit(c) && Keeps(LogMeaning(CurrentLog(p, second)), c)
    requires rev == NextRev(Current(p, second).rev)
    requires cells == CommitCells(CompactTags(CurrentLog(p, second), c), c)
    requires |trace| > start && trace[start] == With(p, !second, Block(rev, []))
    requires Programmed(trace, start + 1, p, !second, Block(rev, []), cells)
    ensures var m := LogMeaning(CurrentLog(p, second)); AllSafe(trace, start, !second, m, Intended(m, c))
  {
    var m := LogMeaning(CurrentLog(p, second));
    var after := Intended(m, c);
    hide Sound, Intended, Safe, LogMeaning, CurrentLog, ValidCommit, Keeps, CommitCells, CompactTags;
    RewriteStartsSafe(p, second, c, m, after, rev);
    RewriteIsSafe(trace, start + 1, p, second, c, m, after, rev, cells);
  }

  // What compaction puts in front of its checksum
  method CompactTagList(log: seq<Entry>, c: Commit) returns (tags: seq<Entry>)
    requires ValidDisk(log) && ValidCommit(c)
    ensures tags == CompactTags(log, c)
  {
    var m := Intended(LogMeaning(log), c);
    tags := Traverse(log, c.attrs, 0, if m.count >= 0 then m.count else 0);
    // the tail comes behind the files
    if m.tail != NO_TAIL {
      tags := tags + [TailEntry(m.tail)];
    }

    // then the share of the global state
    var sum := GetGstate(log, c.delta);
    G.XorComm(c.delta, LogMeaning(log).share);
    if sum != G.ZERO {
      tags := tags + [ShareEntry(sum)];
    }
    tags := tags + c.fcrc;
  }
}
