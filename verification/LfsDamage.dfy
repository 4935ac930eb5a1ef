// What the checksum of a commit is for: it is that of all bytes of the commit,
// a fetch goes on only where it holds, and damage does not go unnoticed.

module LfsDamage {
  import opened Bytes
  import opened LfsLog
  import opened LfsChain
  import opened LfsCommit
  import opened LfsCrash
  import opened LfsCrc
  import opened LfsImage
  import opened LfsWrite
  import Atomic = LfsAtomic
  import Pairs = LfsPair

  // ---- What a checksum covers -----------------------------------------------------

  // The first entry of the commit that entry k belongs to
  function First(log: seq<Entry>, k: nat): (i: nat)
    requires k <= |log|
    ensures i <= k
  {
    if k == 0 || IsCrc(log[k - 1].tag) then k else First(log, k - 1)
  }

  // Where its bytes begin: the first commit has the revision in front.
  function Begin(log: seq<Entry>, k: nat): nat
    requires k <= |log|
  {
    if First(log, k) == 0 then 0 else Off(log, First(log, k))
  }

  // The four bytes behind the word of entry k are the checksum of everything
  // from the beginning of the commit to the end of that word.
  predicate SumHolds(img: seq<byte>, log: seq<Entry>, k: nat)
    requires k < |log|
  {
    var off, begin := Off(log, k), Begin(log, k);
    && begin <= off && off + 8 <= |img|
    && CrcOf(0xffff_ffff, img[begin..off + 4]) == FromLe32(img[off + 4..off + 8])
  }

  lemma {:induction false} FirstPrefix(log: seq<Entry>, e: Entry, k: nat)
    requires k <= |log|
    ensures First(log + [e], k) == First(log, k) && Begin(log + [e], k) == Begin(log, k)
  {
    if k > 0 {
      FirstPrefix(log, e, k - 1);
    }
    PrefixPlace(log, e, First(log, k));
  }

  lemma CrcMore(img: seq<byte>, begin: nat, mid: nat, end: nat)
    requires begin <= mid <= end <= |img|
    ensures CrcOf(CrcOf(INIT, img[begin..mid]), img[mid..end]) == CrcOf(INIT, img[begin..end])
  {
    assert img[begin..end] == img[begin..mid] + img[mid..end];
    CrcConcat(INIT, img[begin..mid], img[mid..end]);
  }

  lemma NextCrc(img: seq<byte>, h: Head)
    requires TagAt(img, h).Go?
    ensures var s := TagAt(img, h);
      && h.off + 4 <= s.next.off <= |img|
      && (if IsCrc(s.cell.e.tag)
          then s.next.crc == INIT && h.off + 8 <= |img|
               && (s.cell.ok <==> CrcOf(h.crc, img[h.off..h.off + 4]) == FromLe32(img[h.off + 4..h.off + 8]))
          else s.next.crc == CrcOf(h.crc, img[h.off..s.next.off]))
  {
    NextShape(img, h);
    hide Be32, Unpack, CrcOf, FromLe32, IsCrc;
  }

  // The head stands behind a log, and its checksum is that of the commit so far.
  ghost predicate RunsTo(img: seq<byte>, log: seq<Entry>, h: Head) {
    && Begin(log, |log|) <= h.off == Off(log, |log|) <= |img|
    && h.crc == CrcOf(INIT, img[Begin(log, |log|)..h.off])
  }

  lemma RunsOn(img: seq<byte>, front: seq<Entry>, h: Head)
    requires RunsTo(img, front, h) && TagAt(img, h).Go?
    ensures RunsTo(img, front + [TagAt(img, h).cell.e], TagAt(img, h).next)
  {
    var s := TagAt(img, h);
    var e, n := s.cell.e, |front|;
    NextCrc(img, h);
    NextShape(img, h);
    FirstPrefix(front, e, n);
    LastPlace(front, e);
    LastBegin(front, e);
    hide TagAt, CrcOf, IsCrc, Off, Begin;
    if !IsCrc(e.tag) {
      CrcMore(img, Begin(front, n), h.off, s.next.off);
    } else {
      assert img[s.next.off..s.next.off] == [];
      CrcNothing();
    }
  }

  lemma LastBegin(front: seq<Entry>, e: Entry)
    ensures var log := front + [e];
      Begin(log, |log|) == if IsCrc(e.tag) then Off(log, |log|) else Begin(front, |front|)
  {
    FirstPrefix(front, e, |front|);
    PrefixPlace(front, e, First(front, |front|));
    assert (front + [e])[|front|] == e;
  }

  lemma CrcNothing()
    ensures CrcOf(INIT, []) == INIT
  {
  }

  lemma {:induction false} Running(img: seq<byte>, cells: seq<Cell>)
    requires |img| >= 4 && Reads(img, Start(img), cells)
    ensures |Log(cells)| == |cells| && RunsTo(img, Log(cells), Nth(img, Start(img), |cells|))
  {
    if cells == [] {
    } else {
      var n := |cells| - 1;
      var p, next := ReadsLast(img, Start(img), cells);
      Running(img, cells[..n]);
      hide TagAt, Reads, Nth, Start, RunsTo;
      RunsOn(img, Log(cells[..n]), p);
    }
  }

  // ---- The checksum decides ----------------------------------------------------------

  lemma {:induction false} ParsePasses(img: seq<byte>, h: Head, j: nat)
    requires j + 1 < |Parse(img, h)|
    ensures Passes(Parse(img, h)[j])
    decreases j
  {
    hide TagAt, Passes;
    if j > 0 {
      ParsePasses(img, TagAt(img, h).next, j - 1);
    }
  }

  // The k-th thing a scan finds, with what it has passed in front of that
  lemma FoundAt(img: seq<byte>, k: nat)
    requires |img| >= 4 && k < |ImageCells(img)|
    ensures var cells, h := ImageCells(img), Nth(img, Start(img), k);
      && Reads(img, Start(img), cells[..k])
      && TagAt(img, h).Go? && TagAt(img, h).cell == cells[k]
      && (!Passes(cells[k]) ==> |cells| == k + 1)
  {
    var cells := ImageCells(img);
    forall j | 0 <= j < k ensures Passes(cells[j]) {
      ParsePasses(img, Start(img), j);
    }
    hide TagAt, Parse, Reads, Nth, Passes, Start;
    ParseReads(img, Start(img), cells, k);
    ParseNext(img, Start(img), cells[..k]);
  }

  lemma SameSum(img: seq<byte>, log: seq<Entry>, longer: seq<Entry>, k: nat)
    requires k == |log| < |longer| && longer[..k] == log
    ensures Off(longer, k) == Off(log, k) && Begin(longer, k) == Begin(log, k)
  {
    SamePlace(log, longer, k);
  }

  lemma {:induction false} SamePlace(log: seq<Entry>, longer: seq<Entry>, j: nat)
    requires j <= |log| <= |longer| && longer[..|log|] == log
    ensures Off(longer, j) == Off(log, j) && First(longer, j) == First(log, j) && Begin(longer, j) == Begin(log, j)
  {
    if j > 0 {
      assert longer[j - 1] == log[j - 1];
      SamePlace(log, longer, j - 1);
      SamePlace(log, longer, First(log, j - 1));
    }
  }

  lemma LogPrefix(cells: seq<Cell>, k: nat)
    requires k <= |cells|
    ensures |Log(cells)| == |cells| && Log(cells)[..k] == Log(cells[..k])
  {
    LogLength(cells);
    LogLength(cells[..k]);
  }

  lemma PassedFront(cells: seq<Cell>, k: nat)
    requires k < |cells| && IsCrc(cells[k].e.tag) && forall j :: 0 <= j <= k ==> Passes(cells[j])
    ensures k < CommitEnd(cells)
  {
    var front, rest, one := cells[..k + 1], cells[k + 1..], [cells[k]];
    assert one[1..] == [];
    assert cells == front + rest && front == cells[..k] + one;
    Pairs.CommitEndAfter(front, rest);
    Pairs.CommitEndAfter(cells[..k], one);
  }

  lemma RunningAt(img: seq<byte>, front: seq<Cell>, log: seq<Entry>)
    requires |img| >= 4 && Reads(img, Start(img), front)
    requires |log| > |front| && log[..|front|] == Log(front)
    ensures var h, k := Nth(img, Start(img), |front|), |front|;
      && Begin(log, k) <= h.off == Off(log, k) <= |img|
      && h.crc == CrcOf(INIT, img[Begin(log, k)..h.off])
  {
    hide TagAt, Reads, Nth, Start, CrcOf, Begin, Off, Log;
    Running(img, front);
    SameSum(img, Log(front), log, |front|);
  }

  lemma SumAt(img: seq<byte>, front: seq<Cell>, c: Cell, log: seq<Entry>)
    requires |img| >= 4 && Reads(img, Start(img), front) && IsCrc(c.e.tag)
    requires var s := TagAt(img, Nth(img, Start(img), |front|)); s.Go? && s.cell == c
    requires |log| > |front| && log[..|front|] == Log(front)
    ensures c.ok <==> SumHolds(img, log, |front|)
  {
    hide TagAt, Reads, Nth, Start, CrcOf, FromLe32, Begin, Off, IsCrc, Log;
    RunningAt(img, front, log);
    var h := Nth(img, Start(img), |front|);
    NextCrc(img, h);
    CrcMore(img, Begin(log, |front|), h.off, h.off + 4);
  }

  lemma AllButLastPass(img: seq<byte>, h: Head, k: nat)
    requires k < |Parse(img, h)|
    ensures forall j :: 0 <= j < k ==> Passes(Parse(img, h)[j])
  {
    forall j | 0 <= j < k ensures Passes(Parse(img, h)[j]) {
      ParsePasses(img, h, j);
    }
  }

  // A checksum tag counts if and only if it is the checksum of its commit, and
  // where it is not the scan ends, with nothing committed from there on.
  lemma ChecksumDecides(img: seq<byte>, k: nat)
    requires |img| >= 4 && k < |ImageCells(img)| && IsCrc(ImageCells(img)[k].e.tag)
    ensures var cells := ImageCells(img);
      && |Log(cells)| == |cells|
      && (k < CommitEnd(cells) <==> SumHolds(img, Log(cells), k))
      && (!SumHolds(img, Log(cells), k) ==> |cells| == k + 1 && CommitEnd(cells) <= k)
  {
    var cells := ImageCells(img);
    AllButLastPass(img, Start(img), k);
    hide TagAt, Reads, Nth, Parse, CommitEnd, SumHolds, Start, Log, IsCrc;
    FoundAt(img, k);
    LogPrefix(cells, k);
    assert |cells[..k]| == k;
    SumAt(img, cells[..k], cells[k], Log(cells));
    if cells[k].ok {
      PassedFront(cells, k);
    } else if k < CommitEnd(cells) {
      CommittedPass(cells, k);
    }
  }

  // ---- Damage ---------------------------------------------------------------------------

  // The images differ, but only in the four bytes from p on.
  predicate DamagedAt(img: seq<byte>, bad: seq<byte>, p: nat) {
    && p + 4 <= |img| == |bad| && img != bad
    && img[..p] == bad[..p] && img[p + 4..] == bad[p + 4..]
  }

  lemma ThreeParts(img: seq<byte>, p: nat)
    requires p + 4 <= |img|
    ensures img == img[..p] + img[p..p + 4] + img[p + 4..]
  {
  }

  lemma DamageSplit(img: seq<byte>, bad: seq<byte>, p: nat, begin: nat, end: nat)
    requires DamagedAt(img, bad, p) && begin <= p && p + 4 <= end <= |img|
    ensures img[p..p + 4] != bad[p..p + 4]
    ensures img[begin..end] == img[begin..p] + img[p..p + 4] + img[p + 4..end]
    ensures bad[begin..end] == img[begin..p] + bad[p..p + 4] + img[p + 4..end]
  {
    ThreeParts(img, p);
    ThreeParts(bad, p);
    DamageOutside(img, bad, p, begin, p);
    DamageOutside(img, bad, p, p + 4, end);
  }

  lemma DamageOutside(img: seq<byte>, bad: seq<byte>, p: nat, i: nat, j: nat)
    requires DamagedAt(img, bad, p) && i <= j <= |img| && (j <= p || p + 4 <= i)
    ensures img[i..j] == bad[i..j]
  {
    if j <= p {
      assert img[i..j] == img[..p][i..j] && bad[i..j] == bad[..p][i..j];
    } else {
      assert img[i..j] == img[p + 4..][i - p - 4..j - p - 4] && bad[i..j] == bad[p + 4..][i - p - 4..j - p - 4];
    }
  }

  lemma BurstBreaks(img: seq<byte>, bad: seq<byte>, p: nat, begin: nat, end: nat)
    requires DamagedAt(img, bad, p) && begin <= p && p + 4 <= end <= |img|
    ensures CrcOf(0xffff_ffff, img[begin..end]) != CrcOf(0xffff_ffff, bad[begin..end])
  {
    DamageSplit(img, bad, p, begin, end);
    var before, behind := img[begin..p], img[p + 4..end];
    hide CrcOf, DamagedAt;
    BurstDetected(0xffff_ffff, before, img[p..p + 4], bad[p..p + 4], behind);
  }

  // A checksum that held does not hold any more.
  lemma SumBroken(img: seq<byte>, bad: seq<byte>, log: seq<Entry>, log': seq<Entry>, k: nat, k': nat, p: nat)
    requires DamagedAt(img, bad, p) && k < |log| && k' < |log'| && SumHolds(img, log, k)
    requires Off(log', k') == Off(log, k) && Begin(log', k') == Begin(log, k)
    requires Begin(log, k) <= p && p + 4 <= Off(log, k) + 4
    ensures !SumHolds(bad, log', k')
  {
    hide CrcOf, FromLe32, Off, Begin, DamagedAt;
    var begin, end := Begin(log, k), Off(log, k) + 4;
    assert SumHolds(img, log, k);
    DamageOutside(img, bad, p, end, end + 4);
    BurstBreaks(img, bad, p, begin, end);
  }

  // A block damaged within four bytes of a commit is not fetched with that
  // commit, wherever a scan of it goes.
  lemma DamageNotFetched(img: seq<byte>, bad: seq<byte>, p: nat, k: nat, k': nat)
    requires |img| >= 4 && DamagedAt(img, bad, p)
    requires k < CommitEnd(ImageCells(img)) && IsCrc(ImageCells(img)[k].e.tag)
    requires k' < |ImageCells(bad)| && IsCrc(ImageCells(bad)[k'].e.tag)
    requires |Log(ImageCells(img))| == |ImageCells(img)| && |Log(ImageCells(bad))| == |ImageCells(bad)|
    requires var log, log' := Log(ImageCells(img)), Log(ImageCells(bad));
      && Off(log', k') == Off(log, k) && Begin(log', k') == Begin(log, k)
      && Begin(log, k) <= p <= Off(log, k)
    ensures CommitEnd(ImageCells(bad)) <= k' && |ImageCells(bad)| == k' + 1
  {
    hide SumHolds, ImageCells, CommitEnd, Begin, Off;
    ChecksumDecides(img, k);
    ChecksumDecides(bad, k');
    SumBroken(img, bad, Log(ImageCells(img)), Log(ImageCells(bad)), k, k', p);
  }

  // ---- Damage to a payload ----------------------------------------------------------------

  predicate SameStep(h: Head, h': Head) {
    h.off == h'.off && h.ptag == h'.ptag
  }

  // The word of a tag says how the scan goes on.
  lemma TagOfWord(img: seq<byte>, bad: seq<byte>, h: Head, h': Head)
    requires |img| == |bad| && SameStep(h, h') && TagAt(img, h).Go?
    requires h.off + 4 <= |img| && img[h.off..h.off + 4] == bad[h.off..h.off + 4]
    ensures var s, s' := TagAt(img, h), TagAt(bad, h');
      s'.Go? && s'.cell.e.tag == s.cell.e.tag && SameStep(s.next, s'.next)
  {
    hide Be32, Unpack, CrcOf, FromLe32, IsCrc, Turned;
    SameWord(img, bad, h.off);
  }

  predicate SameTags(a: seq<Cell>, b: seq<Cell>) {
    |a| == |b| && forall i :: 0 <= i < |a| ==> a[i].e.tag == b[i].e.tag
  }

  lemma {:induction false} SameTagsPlace(a: seq<Entry>, b: seq<Entry>, k: nat)
    requires k <= |a| && k <= |b| && forall i :: 0 <= i < k ==> a[i].tag == b[i].tag
    ensures Off(a, k) == Off(b, k) && First(a, k) == First(b, k) && Begin(a, k) == Begin(b, k)
  {
    if k > 0 {
      SameTagsPlace(a, b, k - 1);
      SameTagsPlace(a, b, First(a, k - 1));
    }
  }

  lemma ScanOneMore(img: seq<byte>, bad: seq<byte>, found: seq<Cell>, p: Head, c: Cell)
    returns (c': Cell)
    requires |img| == |bad| >= 4 && Reads(bad, Start(bad), found)
    requires SameStep(p, Nth(bad, Start(bad), |found|)) && TagAt(img, p).Go? && TagAt(img, p).cell == c
    requires p.off + 4 <= |img| && img[p.off..p.off + 4] == bad[p.off..p.off + 4] && !IsCrc(c.e.tag)
    ensures Reads(bad, Start(bad), found + [c']) && c'.e.tag == c.e.tag
    ensures SameStep(TagAt(img, p).next, Nth(bad, Start(bad), |found| + 1))
  {
    var q := Nth(bad, Start(bad), |found|);
    TagOfWord(img, bad, p, q);
    hide TagAt, Reads, Nth, Start;
    c' := TagAt(bad, q).cell;
    ReadsOneMore(bad, Start(bad), found, c');
  }

  // A scan of the damaged block finds the same tags as long as there is no
  // checksum to compare.
  lemma {:induction false} ScanDamaged(img: seq<byte>, bad: seq<byte>, cells: seq<Cell>, from: nat)
    returns (found: seq<Cell>)
    requires |img| == |bad| >= 4 && Reads(img, Start(img), cells) && from <= |cells|
    requires Reads(bad, Start(bad), cells[..from])
    requires SameStep(Nth(img, Start(img), from), Nth(bad, Start(bad), from))
    requires forall i :: from <= i < |cells| ==> !IsCrc(cells[i].e.tag)
    requires forall i {:trigger Nth(img, Start(img), i)} :: from <= i < |cells| ==>
               var h := Nth(img, Start(img), i);
               h.off + 4 <= |img| && img[h.off..h.off + 4] == bad[h.off..h.off + 4]
    ensures SameTags(found, cells) && found[..from] == cells[..from] && Reads(bad, Start(bad), found)
    ensures SameStep(Nth(img, Start(img), |cells|), Nth(bad, Start(bad), |cells|))
    decreases |cells|
  {
    hide TagAt, Reads, Nth, IsCrc, Start;
    if |cells| == from {
      found := cells;
      assert cells[..from] == cells;
    } else {
      var n := |cells| - 1;
      var p, next := ReadsLast(img, Start(img), cells);
      assert cells[..n][..from] == cells[..from];
      var before := ScanDamaged(img, bad, cells[..n], from);
      var c' := ScanOneMore(img, bad, before, p, cells[n]);
      found := before + [c'];
      assert found[..from] == before[..from];
    }
  }

  lemma {:induction false} NoChecksInside(log: seq<Entry>, k: nat)
    requires k <= |log|
    ensures forall i :: First(log, k) <= i < k ==> !IsCrc(log[i].tag)
    ensures First(log, k) > 0 ==> IsCrc(log[First(log, k) - 1].tag)
  {
    if k > 0 && !IsCrc(log[k - 1].tag) {
      NoChecksInside(log, k - 1);
    }
  }

  // The commits in front of the damaged one are read as before.
  lemma FrontUntouched(img: seq<byte>, bad: seq<byte>, cells: seq<Cell>, s: nat, p: nat)
    requires |img| >= 4 && Reads(img, Start(img), cells) && s <= |cells| && AllWhole(cells[..s])
    requires DamagedAt(img, bad, p) && (s > 0 ==> Nth(img, Start(img), s).off <= p)
    ensures Reads(bad, Start(bad), cells[..s])
    ensures SameStep(Nth(img, Start(img), s), Nth(bad, Start(bad), s))
  {
    ReadsNothing(img, Start(img));
    ReadsNothing(bad, Start(bad));
    if s == 0 {
      assert cells[..0] == [];
    } else {
      Atomic.ReadsFront(img, Start(img), cells, s);
      Atomic.HeadBehindStart(img, cells[..s]);
      var n := Nth(img, Start(img), s).off;
      SameStart(img, bad, n, p);
      SameStart(img, bad, 4, n);
      StartSame(img, bad);
      ReadsFrame(img, bad, Start(img), cells[..s]);
    }
  }

  lemma BadEnds(c: Cell)
    requires IsCrc(c.e.tag) && !c.ok
    ensures CommitEnd([c]) == 0
  {
  }

  // Closed commits with tags behind them
  lemma OpenEnd(front: seq<Cell>, rest: seq<Cell>)
    requires NoCrc(rest) && forall i :: 0 <= i < |front| ==> Passes(front[i])
    requires front != [] ==> IsCrc(front[|front| - 1].e.tag)
    ensures CommitEnd(front + rest) == |front|
  {
    Atomic.PassesOk(front);
    CommitEndTags(rest, []);
    hide Passes, IsCrc, CommitEnd, NoCrc;
    assert rest + [] == rest;
    Pairs.CommitEndAfter(front, rest);
    if front != [] {
      PassedFront(front, |front| - 1);
    }
  }

  lemma CommittedUpTo(front: seq<Cell>, rest: seq<Cell>, c: Cell)
    requires IsCrc(c.e.tag) && !c.ok && NoCrc(rest)
    requires forall i :: 0 <= i < |front + rest| ==> Passes((front + rest)[i])
    requires front != [] ==> IsCrc(front[|front| - 1].e.tag)
    ensures CommitEnd(front + rest + [c]) == |front|
  {
    Atomic.PassesOk(front + rest);
    BadEnds(c);
    hide IsCrc, CommitEnd, NoCrc, Passes;
    Pairs.CommitEndAfter(front + rest, [c]);
    forall i | 0 <= i < |front| ensures Passes(front[i]) {
      assert Passes((front + rest)[i]);
    }
    OpenEnd(front, rest);
  }

  lemma HeadsAt(img: seq<byte>, cells: seq<Cell>, i: nat)
    requires |img| >= 4 && Reads(img, Start(img), cells) && i <= |cells|
    ensures |Log(cells)| == |cells| && Nth(img, Start(img), i).off == Off(Log(cells), i)
  {
    Atomic.ReadsFront(img, Start(img), cells, i);
    Running(img, cells[..i]);
    LogPrefix(cells, i);
    SamePlace(Log(cells[..i]), Log(cells), i);
  }

  ghost predicate HeadsKept(img: seq<byte>, bad: seq<byte>, from: nat, k: nat)
    requires |img| >= 4
  {
    |img| == |bad| && forall i {:trigger Nth(img, Start(img), i)} :: from <= i <= k ==>
      var off := Nth(img, Start(img), i).off;
      off + 4 <= |img| && img[off..off + 4] == bad[off..off + 4]
  }

  // A scan of the damaged block gets to the checksum.
  lemma GetsThere(img: seq<byte>, bad: seq<byte>, p: nat, front: seq<Cell>, c0: Cell, s: nat)
    returns (found: seq<Cell>, c: Cell)
    requires |img| >= 4 && DamagedAt(img, bad, p) && s <= |front| && AllWhole(front[..s])
    requires Reads(img, Start(img), front) && IsCrc(c0.e.tag)
    requires TagAt(img, Nth(img, Start(img), |front|)).Go? && TagAt(img, Nth(img, Start(img), |front|)).cell == c0
    requires HeadsKept(img, bad, s, |front|) && (s > 0 ==> Nth(img, Start(img), s).off <= p)
    requires forall i :: s <= i < |front| ==> !IsCrc(front[i].e.tag)
    ensures SameTags(found, front) && found[..s] == front[..s] && Reads(bad, Start(bad), found)
    ensures c.e.tag == c0.e.tag
    ensures TagAt(bad, Nth(bad, Start(bad), |found|)).Go? && TagAt(bad, Nth(bad, Start(bad), |found|)).cell == c
  {
    hide TagAt, Reads, Nth, Start, IsCrc, AllWhole, DamagedAt;
    FrontUntouched(img, bad, front, s, p);
    found := ScanDamaged(img, bad, front, s);
    TagOfWord(img, bad, Nth(img, Start(img), |front|), Nth(bad, Start(bad), |front|));
    c := TagAt(bad, Nth(bad, Start(bad), |front|)).cell;
  }

  // No word of the commit that ends at k is damaged.
  ghost predicate TagsKept(img: seq<byte>, bad: seq<byte>, log: seq<Entry>, k: nat)
    requires k < |log|
  {
    |img| == |bad| && forall i {:trigger Off(log, i)} :: First(log, k) <= i <= k ==>
      Off(log, i) + 4 <= |img| && img[Off(log, i)..Off(log, i) + 4] == bad[Off(log, i)..Off(log, i) + 4]
  }

  lemma NoChecksIn(front: seq<Cell>, log: seq<Entry>)
    requires |front| < |log| && log[..|front|] == Log(front)
    ensures forall i :: First(log, |front|) <= i < |front| ==> !IsCrc(front[i].e.tag)
  {
    LogLength(front);
    NoChecksInside(log, |front|);
    hide First, IsCrc;
    forall i | First(log, |front|) <= i < |front| ensures !IsCrc(front[i].e.tag) {
      assert log[i] == Log(front)[i];
    }
  }

  lemma KeptAtHeads(img: seq<byte>, bad: seq<byte>, front: seq<Cell>, log: seq<Entry>)
    requires |img| >= 4 && Reads(img, Start(img), front) && |front| < |log| && log[..|front|] == Log(front)
    requires TagsKept(img, bad, log, |front|)
    ensures var s := First(log, |front|);
      && HeadsKept(img, bad, s, |front|) && Nth(img, Start(img), s).off == Off(log, s)
      && Nth(img, Start(img), |front|).off == Off(log, |front|)
  {
    var s := First(log, |front|);
    hide Nth, Reads, Start, Off, First, IsCrc, Log;
    forall i | s <= i <= |front| ensures Nth(img, Start(img), i).off == Off(log, i) {
      HeadsAt(img, front, i);
      SamePlace(Log(front), log, i);
    }
  }

  // The damaged block read up to the checksum and no further
  lemma EndsThere(img: seq<byte>, bad: seq<byte>, p: nat, k: nat, found: seq<Cell>, c: Cell)
    requires |img| >= 4 && DamagedAt(img, bad, p)
    requires var cells, log := ImageCells(img), Log(ImageCells(img));
      && |log| == |cells| && k < CommitEnd(cells) && IsCrc(cells[k].e.tag)
      && Begin(log, k) <= p <= Off(log, k) && SameTags(found, cells[..k]) && c.e.tag == cells[k].e.tag
    requires |found| == k && Reads(bad, Start(bad), found)
    requires TagAt(bad, Nth(bad, Start(bad), k)).Go? && TagAt(bad, Nth(bad, Start(bad), k)).cell == c
    ensures ImageCells(bad) == found + [c] && !c.ok
  {
    assert |bad| == |img|;
    hide TagAt, Reads, Nth, Start, Parse, ImageCells, CommitEnd, IsCrc, Begin, Off, Passes, SameTags, Log, DamagedAt;
    var cells, cells' := ImageCells(img), ImageCells(bad);
    ReadsPassAll(bad, found);
    FoundNext(bad, found, c);
    SameTagLogs(cells, cells', k);
    DamageNotFetched(img, bad, p, k, k);
    MustFail(cells', found, c);
  }

  lemma FoundNext(bad: seq<byte>, found: seq<Cell>, c: Cell)
    requires |bad| >= 4 && Reads(bad, Start(bad), found)
    requires TagAt(bad, Nth(bad, Start(bad), |found|)).Go? && TagAt(bad, Nth(bad, Start(bad), |found|)).cell == c
    ensures var cells, k := ImageCells(bad), |found|; |cells| > k && cells[..k] == found && cells[k] == c
  {
    hide TagAt, Reads, Nth, Start, Parse, Passes;
    ParseNext(bad, Start(bad), found);
  }

  lemma MustFail(cells: seq<Cell>, found: seq<Cell>, c: Cell)
    requires |cells| == |found| + 1 && cells[..|found|] == found && cells[|found|] == c
    requires IsCrc(c.e.tag) && CommitEnd(cells) <= |found| && forall i :: 0 <= i < |found| ==> Passes(found[i])
    ensures cells == found + [c] && !c.ok
  {
    hide IsCrc, CommitEnd, Passes;
    assert cells == found + [c];
    if c.ok {
      CheckPasses(c);
      PassedFront(cells, |found|);
    }
  }

  lemma CheckPasses(c: Cell)
    requires c.ok
    ensures Passes(c)
  {
  }

  lemma SameTagLogs(a: seq<Cell>, b: seq<Cell>, k: nat)
    requires k <= |a| && k <= |b| && SameTags(b[..k], a[..k])
    ensures |Log(a)| == |a| && |Log(b)| == |b|
    ensures Off(Log(b), k) == Off(Log(a), k) && Begin(Log(b), k) == Begin(Log(a), k)
  {
    LogLength(a);
    LogLength(b);
    forall i | 0 <= i < k ensures Log(b)[i].tag == Log(a)[i].tag {
      assert b[..k][i].e.tag == a[..k][i].e.tag;
    }
    SameTagsPlace(Log(b), Log(a), k);
  }

  lemma ReadsPassAll(img: seq<byte>, cells: seq<Cell>)
    requires |img| >= 4 && Reads(img, Start(img), cells)
    ensures forall i :: 0 <= i < |cells| ==> Passes(cells[i])
  {
    Atomic.ReadsPass(img, Start(img), cells);
  }

  // The commit that ends at k is damaged within four bytes, none of them in a
  // word.
  ghost predicate CommitDamaged(img: seq<byte>, bad: seq<byte>, p: nat, k: nat)
    requires |img| >= 4
  {
    var cells, log := ImageCells(img), Log(ImageCells(img));
    && |log| == |cells| && k < CommitEnd(cells) && IsCrc(cells[k].e.tag) && AllWhole(cells[..k])
    && DamagedAt(img, bad, p) && Begin(log, k) <= p <= Off(log, k) && TagsKept(img, bad, log, k)
  }

  lemma FrontOfDamage(img: seq<byte>, bad: seq<byte>, p: nat, k: nat) returns (front: seq<Cell>, s: nat)
    requires |img| >= 4 && CommitDamaged(img, bad, p, k)
    ensures s <= k == |front| < |ImageCells(img)| && front == ImageCells(img)[..k]
    ensures |Log(ImageCells(img))| == |ImageCells(img)| && s == First(Log(ImageCells(img)), k)
    ensures Reads(img, Start(img), front) && AllWhole(front[..s]) && HeadsKept(img, bad, s, k)
    ensures s > 0 ==> Nth(img, Start(img), s).off <= p && IsCrc(front[s - 1].e.tag)
    ensures forall i :: s <= i < k ==> !IsCrc(front[i].e.tag)
    ensures var h := Nth(img, Start(img), k); TagAt(img, h).Go? && TagAt(img, h).cell == ImageCells(img)[k]
  {
    var cells, log := ImageCells(img), Log(ImageCells(img));
    front, s := cells[..k], First(log, k);
    hide TagAt, Reads, Nth, Start, Parse, ImageCells, CommitEnd, IsCrc, Off, First, TagsKept, DamagedAt;
    FoundAt(img, k);
    LogPrefix(cells, k);
    NoChecksInside(log, k);
    LogLength(cells);
    KeptAtHeads(img, bad, front, log);
    NoChecksIn(front, log);
    assert s > 0 ==> Begin(log, k) == Off(log, s);
  }

  lemma ReadOfDamage(img: seq<byte>, bad: seq<byte>, p: nat, k: nat) returns (found: seq<Cell>, c: Cell)
    requires |img| >= 4 && CommitDamaged(img, bad, p, k)
    ensures k < |ImageCells(img)| == |Log(ImageCells(img))| && |bad| == |img| && ImageCells(bad) == found + [c] && !c.ok
    ensures SameTags(found, ImageCells(img)[..k]) && c.e.tag == ImageCells(img)[k].e.tag
    ensures var s := First(Log(ImageCells(img)), k); s <= k && found[..s] == ImageCells(img)[..s]
    ensures forall i :: 0 <= i < |found| ==> Passes(found[i])
  {
    assert |bad| == |img|;
    hide TagAt, Reads, Nth, Start, Parse, ImageCells, CommitEnd, IsCrc, Off, First, TagsKept, DamagedAt;
    hide AllWhole, HeadsKept, Passes, Begin, Log;
    var front, s := FrontOfDamage(img, bad, p, k);
    assert front[..s] == ImageCells(img)[..s];
    found, c := GetsThere(img, bad, p, front, ImageCells(img)[k], s);
    EndsThere(img, bad, p, k, found, c);
    ReadsPassAll(bad, found);
  }

  // A payload, or the revision, damaged within four bytes: a fetch finds the
  // commits in front of the damaged one, and nothing of that or behind it.
  lemma PayloadDamage(img: seq<byte>, bad: seq<byte>, p: nat, k: nat)
    requires |img| >= 4 && CommitDamaged(img, bad, p, k)
    ensures var cells, s := ImageCells(img), First(Log(ImageCells(img)), k);
      && |bad| >= 4 && s <= |cells|
      && CommitEnd(ImageCells(bad)) == s && Committed(ImageCells(bad)) == Log(cells[..s])
  {
    var cells, s := ImageCells(img), First(Log(ImageCells(img)), k);
    var found, c := ReadOfDamage(img, bad, p, k);
    SameChecks(cells, found, k);
    hide ImageCells, IsCrc, First, CommitEnd, Passes, Log, NoCrc;
    assert found == cells[..s] + found[s..];
    CommittedUpTo(cells[..s], found[s..], c);
    assert (found + [c])[..s] == found[..s];
  }

  lemma SameChecks(cells: seq<Cell>, found: seq<Cell>, k: nat)
    requires k <= |cells| == |Log(cells)| && SameTags(found, cells[..k])
    ensures var s := First(Log(cells), k);
      NoCrc(found[s..]) && (s > 0 ==> IsCrc(cells[s - 1].e.tag))
  {
    LogLength(cells);
    NoChecksInside(Log(cells), k);
    hide IsCrc, First, Log;
    forall i | 0 <= i < k ensures found[i].e.tag == Log(cells)[i].tag {
      assert found[i].e.tag == cells[..k][i].e.tag;
    }
  }
}
