// Fetching from the bytes of a metadata block: words with their valid bits, the
// running checksum, and the log that a scan of them finds.

module LfsImage {
  import opened Bits
  import opened Bytes
  import opened Options
  import opened LfsLog
  import opened LfsChain
  import opened LfsCommit
  import opened LfsPair
  import opened LfsCrc
  import Lookup = LfsGet

  const TYPE_FCRC := 0x5ff
  const INIT: nat := 0xffff_ffff

  // ---- One tag of the scan --------------------------------------------------

  // Where a scan stands: the offset of the next word, the 32-bit tag in front
  // of it, and the checksum of the commit so far
  datatype Head = Head(off: nat, ptag: nat, crc: nat)

  datatype Step = Stop | Go(cell: Cell, next: Head)

  // The valid bit a tag leaves for the one behind it
  function Turned(w: nat, t: Tag): nat {
    if t.typ % 2 == 1 then w + LOW31 else w
  }

  // What the scan finds at a head.  A word is there only if its valid bit is
  // clear and the tag ends inside the block.
  function TagAt(img: seq<byte>, h: Head): Step {
    if h.off + 4 > |img| then Stop
    else
      var w := Xor(Be32(img, h.off), h.ptag);
      var t := Unpack(w);
      var end := h.off + DSize(t);
      if w >= LOW31 || end > |img| then Stop
      else if IsCrc(t) then
        if h.off + 8 > |img| then Stop
        else
          var ok := CrcOf(h.crc, img[h.off..h.off + 4]) == FromLe32(img[h.off + 4..h.off + 8]);
          Go(Cell(Entry(t, img[h.off + 4..end]), ok), Head(end, Turned(w, t), INIT))
      else if (Type1(t.typ) == TYPE_TAIL || t.typ == TYPE_FCRC) && h.off + 12 > |img| then Stop
      else Go(Cell(Entry(t, img[h.off + 4..end]), false), Head(end, w, CrcOf(h.crc, img[h.off..end])))
  }

  // A checksum that does not match ends the scan.
  predicate Passes(c: Cell) {
    IsCrc(c.e.tag) ==> c.ok
  }

  // All that a scan from a head reads
  function Parse(img: seq<byte>, h: Head): seq<Cell>
    decreases |img| - h.off
  {
    match TagAt(img, h)
    case Stop => []
    case Go(c, n) => if Passes(c) then [c] + Parse(img, n) else [c]
  }

  function Start(img: seq<byte>): Head
    requires |img| >= 4
  {
    Head(4, INIT, CrcOf(INIT, img[..4]))
  }

  // The cells that a block's bytes stand for
  function ImageCells(img: seq<byte>): seq<Cell>
    requires |img| >= 4
  {
    Parse(img, Start(img))
  }

  // The head after k steps
  function Nth(img: seq<byte>, h: Head, k: nat): Head {
    if k == 0 then h
    else
      var p := Nth(img, h, k - 1);
      match TagAt(img, p)
      case Stop => p
      case Go(_, n) => n
  }

  ghost predicate ReadsAt(img: seq<byte>, h: Head, cells: seq<Cell>, k: nat)
    requires k < |cells|
  {
    && TagAt(img, Nth(img, h, k)) == Go(cells[k], Nth(img, h, k + 1))
    && Passes(cells[k])
  }

  // A scan from the head passes these cells, one after the other.
  ghost predicate Reads(img: seq<byte>, h: Head, cells: seq<Cell>) {
    forall k :: 0 <= k < |cells| ==> ReadsAt(img, h, cells, k)
  }

  lemma ReadsNothing(img: seq<byte>, h: Head)
    ensures Reads(img, h, []) && Nth(img, h, 0) == h
  {
  }

  lemma ReadsOneMore(img: seq<byte>, h: Head, cells: seq<Cell>, c: Cell)
    requires Reads(img, h, cells) && Passes(c)
    requires TagAt(img, Nth(img, h, |cells|)).Go? && TagAt(img, Nth(img, h, |cells|)).cell == c
    ensures Reads(img, h, cells + [c])
    ensures Nth(img, h, |cells| + 1) == TagAt(img, Nth(img, h, |cells|)).next
  {
    hide TagAt;
    forall k | 0 <= k < |cells| + 1 ensures ReadsAt(img, h, cells + [c], k) {
      assert k < |cells| ==> ReadsAt(img, h, cells, k);
    }
  }

  lemma ReadsLast(img: seq<byte>, h: Head, cells: seq<Cell>) returns (p: Head, n: Head)
    requires cells != [] && Reads(img, h, cells)
    ensures Reads(img, h, cells[..|cells| - 1]) && Passes(cells[|cells| - 1])
    ensures p == Nth(img, h, |cells| - 1) && n == Nth(img, h, |cells|)
    ensures TagAt(img, p) == Go(cells[|cells| - 1], n)
  {
    hide TagAt;
    var k := |cells| - 1;
    p, n := Nth(img, h, k), Nth(img, h, k + 1);
    forall j | 0 <= j < k ensures ReadsAt(img, h, cells[..k], j) {
      assert ReadsAt(img, h, cells, j);
    }
    assert ReadsAt(img, h, cells, k);
  }

  // What is read is the front of what the scan reads in all.
  lemma {:induction false} ReadsParse(img: seq<byte>, h: Head, cells: seq<Cell>)
    requires Reads(img, h, cells)
    ensures Parse(img, h) == cells + Parse(img, Nth(img, h, |cells|))
  {
    hide TagAt, Passes;
    if cells == [] {
      assert cells + Parse(img, h) == Parse(img, h);
    } else {
      var n := |cells| - 1;
      var p, next := ReadsLast(img, h, cells);
      ReadsParse(img, h, cells[..n]);
      assert cells == cells[..n] + [cells[n]];
    }
  }

  // Cells in front of the end of the last commit are all passed.
  lemma {:induction false} CommittedPass(cells: seq<Cell>, j: nat)
    requires j < CommitEnd(cells)
    ensures Passes(cells[j])
  {
    if j > 0 {
      CommittedPass(cells[1..], j - 1);
    }
  }

  // Behind what has been read the scan finds the next cell.
  lemma ParseNext(img: seq<byte>, h: Head, cells: seq<Cell>)
    requires Reads(img, h, cells)
    ensures var s := TagAt(img, Nth(img, h, |cells|));
      && |Parse(img, h)| >= |cells| && Parse(img, h)[..|cells|] == cells
      && (s.Stop? <==> |Parse(img, h)| == |cells|)
      && (s.Go? ==> Parse(img, h)[|cells|] == s.cell)
      && (s.Go? && !Passes(s.cell) ==> |Parse(img, h)| == |cells| + 1)
  {
    hide TagAt, Reads, Passes;
    ReadsParse(img, h, cells);
    var rest := Parse(img, Nth(img, h, |cells|));
    assert (cells + rest)[..|cells|] == cells;
  }

  lemma {:induction false} ParseReads(img: seq<byte>, h: Head, cells: seq<Cell>, k: nat)
    requires cells == Parse(img, h) && k <= |cells|
    requires forall j :: 0 <= j < k ==> Passes(cells[j])
    ensures Reads(img, h, cells[..k])
  {
    hide TagAt, Parse, Reads, Nth, Passes;
    if k == 0 {
      ReadsNothing(img, h);
      assert cells[..0] == [];
    } else {
      ParseReads(img, h, cells, k - 1);
      ParseNext(img, h, cells[..k - 1]);
      ReadsOneMore(img, h, cells[..k - 1], cells[k - 1]);
      assert cells[..k] == cells[..k - 1] + [cells[k - 1]];
    }
  }

  // ---- The scan --------------------------------------------------------------

  // One round of the inner loop of lfs_dir_fetchmatch, with the checksum fed
  // first with the word and then with the payload
  method ReadTag(img: seq<byte>, h: Head) returns (s: Step)
    requires h.crc < WORD
    ensures s == TagAt(img, h)
    ensures s.Go? ==> s.next.crc < WORD
  {
    hide CrcOf, Xor, FromLe32, Be32;
    if h.off + 4 > |img| {
      return Stop;
    }
    var crc := Crc(h.crc, img[h.off..h.off + 4]);
    var w := Xor(Be32(img, h.off), h.ptag);
    var tag := Unpack(w);
    var end := h.off + DSize(tag);
    if w >= LOW31 || end > |img| {
      return Stop;
    }
    var e := Entry(tag, img[h.off + 4..end]);
    if IsCrc(tag) {
      if h.off + 8 > |img| {
        return Stop;
      }
      var dcrc := FromLe32(img[h.off + 4..h.off + 8]);
      return Go(Cell(e, crc == dcrc), Head(end, Turned(w, tag), INIT));
    }
    crc := Crc(crc, img[h.off + 4..end]);
    CrcConcat(h.crc, img[h.off..h.off + 4], img[h.off + 4..end]);
    assert img[h.off..end] == img[h.off..h.off + 4] + img[h.off + 4..end];
    if (Type1(tag.typ) == TYPE_TAIL || tag.typ == TYPE_FCRC) && h.off + 12 > |img| {
      return Stop;
    }
    return Go(Cell(e, false), Head(end, w, crc));
  }

  // Committed tails are pairs of block numbers.
  predicate TailsWhole(cells: seq<Cell>) {
    forall i :: 0 <= i < CommitEnd(cells) && Type1(cells[i].e.tag.typ) == TYPE_TAIL ==> cells[i].e.tag.size == 8
  }

  // The scan of a block has passed i cells, the last commit among them ends at
  // `end`, and the head is behind them.
  ghost predicate Standing(img: seq<byte>, start: Head, cells: seq<Cell>, i: nat, end: nat, h: Head) {
    && cells == Parse(img, start) && i <= |cells| && Scanned(cells, i, end)
    && Reads(img, start, cells[..i]) && h == Nth(img, start, i) && 4 <= h.off && h.crc < WORD
  }

  lemma StandingStart(img: seq<byte>, start: Head)
    requires 4 <= start.off && start.crc < WORD
    ensures Standing(img, start, Parse(img, start), 0, 0, start)
  {
    hide Parse;
    ScanStarts(Parse(img, start));
    ReadsNothing(img, start);
  }

  // One tag further, or the end of what a fetch takes notice of
  lemma StandingStep(img: seq<byte>, start: Head, cells: seq<Cell>, i: nat, end: nat, h: Head)
    requires Standing(img, start, cells, i, end, h)
    ensures var s := TagAt(img, h);
      if s.Stop? || !Passes(s.cell) then CommitEnd(cells) == end
      else
        && i < |cells| && cells[i] == s.cell
        && (s.next.crc < WORD ==>
              Standing(img, start, cells, i + 1, if IsCrc(s.cell.e.tag) then i + 1 else end, s.next))
        && (IsCrc(s.cell.e.tag) ==> i + 1 <= CommitEnd(cells))
  {
    hide TagAt, Parse, CommitEnd, Scanned, IsCrc, Nth, Reads;
    ParseNext(img, start, cells[..i]);
    ScanStep(cells, i, end);
    if TagAt(img, h).Go? && Passes(cells[i]) {
      NextShape(img, h);
      ReadsOneMore(img, start, cells[..i], cells[i]);
      assert cells[..i + 1] == cells[..i] + [cells[i]];
    }
  }

  lemma NextShape(img: seq<byte>, h: Head)
    requires TagAt(img, h).Go?
    ensures var s, tag := TagAt(img, h), TagAt(img, h).cell.e.tag;
      && s.next.off == h.off + DSize(tag) <= |img|
      && s.cell.e.data == img[h.off + 4..h.off + DSize(tag)]
      && (Type1(tag.typ) == TYPE_TAIL ==> h.off + 12 <= |img| && !IsCrc(tag))
  {
  }

  lemma CheckApplied(d: Dir, e: Entry)
    requires IsCrc(e.tag)
    ensures Apply(d, e).count == d.count && RawTail(Apply(d, e).globals) == RawTail(d.globals)
  {
    assert 0x500 <= e.tag.typ < 0x580;
    assert ClassOf(e.tag.typ) == e.tag.typ && Type1(e.tag.typ) == 0x500;
  }

  // A checksum changes nothing of what the tags in front of it say.
  lemma CheckTeaches(cells: seq<Cell>, i: nat, count: int, hard: bool, pair: seq<byte>)
    requires i < |cells| && IsCrc(cells[i].e.tag) && Learned(cells, i, count, hard, pair)
    ensures Learned(cells, i + 1, count, hard, pair)
  {
    PrefixStep(cells, i);
    CheckApplied(Prefix(cells, i), cells[i].e);
    hide Prefix, Apply, RawTail, IsCrc;
  }

  lemma TailsKept(cells: seq<Cell>)
    requires TailsWhole(cells)
    ensures KeepsTail(cells)
  {
  }

  // The end of the last commit and what the tags in front of it say
  ghost predicate Ended(img: seq<byte>, cells: seq<Cell>, end: nat,
                        off: nat, etag: nat, count: int, hard: bool, pair: seq<byte>)
    requires |img| >= 4
  {
    if end == 0 then off == 0
    else
      && end <= |cells|
      && off == Nth(img, Start(img), end).off > 0 && etag == Nth(img, Start(img), end).ptag
      && Reads(img, Start(img), cells[..end]) && Learned(cells, end, count, hard, pair)
  }

  lemma EndedFetched(img: seq<byte>, cells: seq<Cell>, off: nat, etag: nat, count: int, hard: bool, pair: seq<byte>)
    requires |img| >= 4 && Ended(img, cells, CommitEnd(cells), off, etag, count, hard, pair)
    ensures off == 0 <==> CommitEnd(cells) == 0
    ensures off > 0 ==>
              && Reads(img, Start(img), cells[..CommitEnd(cells)])
              && off == Nth(img, Start(img), CommitEnd(cells)).off
              && etag == Nth(img, Start(img), CommitEnd(cells)).ptag
              && count == LogMeaning(Committed(cells)).count
              && Canonical(hard, pair) == LogMeaning(Committed(cells)).tail
  {
    if off > 0 {
      hide Nth, Start, Reads, LogMeaning, Canonical, Committed, Learned;
      FetchedMeaning(cells, Fetch(CommitEnd(cells), count, hard, pair));
    }
  }

  // The inner loop of lfs_dir_fetchmatch on the bytes of a block
  method FetchImage(img: seq<byte>) returns (off: nat, etag: nat, count: int, hard: bool, pair: seq<byte>)
    requires |img| >= 4 && TailsWhole(ImageCells(img))
    ensures var cells := ImageCells(img);
      && (off == 0 <==> CommitEnd(cells) == 0)
      && (off > 0 ==>
            && Reads(img, Start(img), cells[..CommitEnd(cells)])
            && off == Nth(img, Start(img), CommitEnd(cells)).off
            && etag == Nth(img, Start(img), CommitEnd(cells)).ptag
            && count == LogMeaning(Committed(cells)).count
            && Canonical(hard, pair) == LogMeaning(Committed(cells)).tail)
  {
    ghost var cells, start := ImageCells(img), Start(img);
    ghost var i: nat, end: nat := 0, 0;
    off, etag, count, hard, pair := 0, 0, 0, false, NULL_PAIR;
    var tempcount: int, temphard, temppair := 0, false, NULL_PAIR;
    var crc := LfsCrc.Crc(INIT, img[..4]);
    var h := Head(4, INIT, crc);
    ScanStarts(cells);
    StandingStart(img, start);
    assert Ended(img, cells, 0, off, etag, count, hard, pair);
    hide TagAt, Standing, Ended, Learned, CommitEnd, Parse, ImageCells, Start, LogMeaning, Committed, Reads, Nth;
    hide Canonical, CrcOf, TailsWhole, KeepsTail, IsCrc, Type1, DSize;
    while true
      invariant Standing(img, start, cells, i, end, h) && h.crc < WORD
      invariant i <= CommitEnd(cells) ==> Learned(cells, i, tempcount, temphard, temppair)
      invariant Ended(img, cells, end, off, etag, count, hard, pair)
      decreases |cells| - i
    {
      var s := ReadTag(img, h);
      StandingStep(img, start, cells, i, end, h);
      if s.Stop? || (IsCrc(s.cell.e.tag) && !s.cell.ok) {
        break;
      }
      var tag := s.cell.e.tag;
      if IsCrc(tag) {
        // a complete commit
        off, etag, count, hard, pair := s.next.off, s.next.ptag, tempcount, temphard, temppair;
        CheckTeaches(cells, i, count, hard, pair);
        end := i + 1;
        EndedHere(img, cells, end, s.next, count, hard, pair);
      } else {
        tempcount, temphard, temppair := FetchTagAt(img, h, tag, tempcount, temphard, temppair, cells, i);
      }
      h := s.next;
      i := i + 1;
    }
    EndedFetched(img, cells, off, etag, count, hard, pair);
  }

  // One tag of the scan that is no checksum; the payload of a tail is read.
  method FetchTagAt(img: seq<byte>, h: Head, tag: Tag, count: int, hard: bool, pair: seq<byte>,
                    ghost cells: seq<Cell>, ghost i: nat)
    returns (count': int, hard': bool, pair': seq<byte>)
    requires TailsWhole(cells) && i < |cells| && tag == cells[i].e.tag
    requires TagAt(img, h).Go? && TagAt(img, h).cell == cells[i]
    requires i < CommitEnd(cells) ==> Learned(cells, i, count, hard, pair)
    ensures i < CommitEnd(cells) ==> Learned(cells, i + 1, count', hard', pair')
  {
    WholeTail(img, h, cells, i);
    NextShape(img, h);
    TailsKept(cells);
    hide TagAt, Learned, CommitEnd, TailsWhole, KeepsTail;
    var data := if Type1(tag.typ) == TYPE_TAIL then img[h.off + 4..h.off + 12] else [];
    count', hard', pair' := FetchTag(tag, data, count, hard, pair, cells, i);
  }

  lemma EndedHere(img: seq<byte>, cells: seq<Cell>, end: nat, h: Head, count: int, hard: bool, pair: seq<byte>)
    requires |img| >= 4 && end > 0 && Standing(img, Start(img), cells, end, end, h)
    requires Learned(cells, end, count, hard, pair)
    ensures Ended(img, cells, end, h.off, h.ptag, count, hard, pair)
  {
  }

  // The eight bytes behind a committed tail tag are its payload.
  lemma WholeTail(img: seq<byte>, h: Head, cells: seq<Cell>, i: nat)
    requires TailsWhole(cells) && i < |cells| && TagAt(img, h).Go? && TagAt(img, h).cell == cells[i]
    ensures i < CommitEnd(cells) && Type1(cells[i].e.tag.typ) == TYPE_TAIL ==>
              h.off + 12 <= |img| && cells[i].e.data == img[h.off + 4..h.off + 12]
  {
    NextShape(img, h);
    hide TagAt;
  }

  // ---- What is read is a log the block holds -----------------------------------

  lemma PackUnpack(w: nat)
    requires w < LOW31
    ensures Pack(Unpack(w)) == w && ValidTag(Unpack(w))
  {
    assert w / 0x10_0000 == w / 0x400 / 0x400;
  }

  lemma NextWord(img: seq<byte>, h: Head)
    requires TagAt(img, h).Go?
    ensures h.off + 4 <= |img|
    ensures var w, s := Xor(Be32(img, h.off), h.ptag), TagAt(img, h);
      w < LOW31 && s.cell.e.tag == Unpack(w) && s.next.ptag < WORD && s.next.ptag % LOW31 == w
  {
    hide Xor, Be32, Unpack, CrcOf, FromLe32, IsCrc;
  }

  lemma WordBack(v: nat, ptag: nat)
    requires Xor(v, ptag) < LOW31
    ensures v % LOW31 == Xor(Xor(v, ptag), ptag % LOW31)
  {
    hide Xor, Pow2;
    XorCancel(v, ptag);
    Pow2Values();
    XorLowRight(Xor(v, ptag), ptag, 31);
  }

  // One word further the block holds one entry more.
  lemma NextHolds(img: seq<byte>, h: Head, log: seq<Entry>)
    requires TagAt(img, h).Go?
    requires h.off == Off(log, |log|) && h.ptag % LOW31 == Ptag(log, |log|)
    ensures var s := TagAt(img, h);
      var longer := log + [s.cell.e];
      && HoldsAt(img, longer, |log|)
      && s.next.off == Off(longer, |longer|) <= |img|
      && s.next.ptag < WORD && s.next.ptag % LOW31 == Ptag(longer, |longer|)
  {
    NextWord(img, h);
    NextShape(img, h);
    LastPlace(log, TagAt(img, h).cell.e);
    hide TagAt, Xor, Be32, Unpack, Pack, DSize, ValidTag, Off, Ptag;
    PackUnpack(Xor(Be32(img, h.off), h.ptag));
    WordBack(Be32(img, h.off), h.ptag);
  }

  lemma LastPlace(log: seq<Entry>, e: Entry)
    ensures var longer := log + [e];
      && longer[|log|] == e && Off(longer, |log|) == Off(log, |log|) && Ptag(longer, |log|) == Ptag(log, |log|)
      && Off(longer, |longer|) == Off(log, |log|) + DSize(e.tag) && Ptag(longer, |longer|) == Pack(e.tag)
  {
    PrefixPlace(log, e, |log|);
  }

  lemma {:induction false} PrefixPlace(log: seq<Entry>, e: Entry, k: nat)
    requires k <= |log|
    ensures Off(log + [e], k) == Off(log, k) && Ptag(log + [e], k) == Ptag(log, k)
  {
    if k > 0 {
      PrefixPlace(log, e, k - 1);
    }
  }

  lemma HoldsMore(img: seq<byte>, log: seq<Entry>, e: Entry)
    requires Holds(img, log) && Off(log + [e], |log| + 1) <= |img| && HoldsAt(img, log + [e], |log|)
    ensures Holds(img, log + [e])
  {
    forall k | 0 <= k < |log| ensures HoldsAt(img, log + [e], k) {
      assert HoldsAt(img, log, k);
      PrefixPlace(log, e, k);
    }
  }

  // Whatever a scan passes is a log that the block holds, chained word to word.
  lemma {:induction false} ReadsHold(img: seq<byte>, cells: seq<Cell>)
    requires |img| >= 4 && Reads(img, Start(img), cells)
    ensures var h := Nth(img, Start(img), |cells|);
      var log := Log(cells);
      && Holds(img, log) && |log| == |cells|
      && h.off == Off(log, |log|) && h.ptag < WORD && h.ptag % LOW31 == Ptag(log, |log|)
  {
    if cells != [] {
      var n := |cells| - 1;
      var h, next := ReadsLast(img, Start(img), cells);
      ReadsHold(img, cells[..n]);
      hide TagAt, Start, HoldsAt, Reads, Nth;
      NextHolds(img, h, Log(cells[..n]));
      HoldsMore(img, Log(cells[..n]), cells[n].e);
    }
  }

  // Fetching a block and looking something up in it, from its bytes alone.
  method FetchAndGet(img: seq<byte>, move: Option<nat>, q: Lookup.Query, gsize: nat)
    returns (r: Option<Option<Lookup.Found>>)
    requires |img| >= 4 && TailsWhole(ImageCells(img))
    requires ValidLog(Committed(ImageCells(img))) && Lookup.ValidQuery(q)
    ensures var cells := ImageCells(img);
      && (r.None? <==> CommitEnd(cells) == 0)
      && (r.Some? ==> Lookup.Outcome(Lookup.CodeAnswer(Replay(Committed(cells)), move, q), q, gsize, r.value))
  {
    var off, etag, _, _, _ := FetchImage(img);
    if off == 0 {
      return None;
    }
    ghost var cells := ImageCells(img);
    ReadsHold(img, cells[..CommitEnd(cells)]);
    var found := Lookup.GetSlice(img, off, etag % LOW31, move, q, gsize, Committed(cells));
    return Some(found);
  }
}
