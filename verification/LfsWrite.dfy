// Writing a commit into the bytes of a metadata block: the tags, the erase
// checksum, the checksums with their padding, and the check at the end.

module LfsWrite {
  import opened Bits
  import opened Bytes
  import opened LfsLog
  import opened LfsChain
  import opened LfsCommit
  import opened LfsCrash
  import opened LfsCrc
  import opened LfsImage
  import opened Numbers
  import opened Sequences
  import Cache = LfsCache
  import G = LfsGstate
  import Pairs = LfsPair

  // ---- One tag in bytes ---------------------------------------------------------

  function ToBe32(n: nat): (s: seq<byte>)
    requires n < WORD
    ensures |s| == 4
  {
    [n / 0x100_0000, n / 0x1_0000 % 0x100, n / 0x100 % 0x100, n % 0x100]
  }

  lemma FromToBe32(img: seq<byte>, off: nat, n: nat)
    requires off + 4 <= |img| && n < WORD && img[off..off + 4] == ToBe32(n)
    ensures Be32(img, off) == n
  {
    var four := img[off..off + 4];
    assert img[off] == four[0] && img[off + 1] == four[1] && img[off + 2] == four[2] && img[off + 3] == four[3];
    assert n / 0x1_0000 == n / 0x100 / 0x100;
    assert n / 0x100_0000 == n / 0x1_0000 / 0x100;
  }

  // A block with bytes programmed into it
  function Put(img: seq<byte>, off: nat, bytes: seq<byte>): seq<byte>
    requires off + |bytes| <= |img|
  {
    Laid(img, off, bytes)
  }

  lemma PutParts(img: seq<byte>, off: nat, a: seq<byte>, b: seq<byte>)
    requires off + |a| + |b| <= |img|
    ensures var out := Put(img, off, a + b);
      && |out| == |img| && out[off..off + |a|] == a && out[off + |a|..off + |a| + |b|] == b
      && out[off..off + |a| + |b|] == a + b
      && out[..off] == img[..off]
  {
  }

  lemma PutKept(img: seq<byte>, off: nat, bytes: seq<byte>)
    requires off + |bytes| <= |img|
    ensures |Put(img, off, bytes)| == |img| && Kept(img, Put(img, off, bytes), off)
  {
  }

  // The word a commit writes for a tag
  function WordFor(tag: Tag, ptag: nat): (w: nat)
    requires ValidTag(tag) && ptag < WORD
    ensures w < WORD
  {
    UnpackPack(tag);
    XorWord(Pack(tag), ptag);
    Xor(Pack(tag), ptag)
  }

  lemma WordReads(tag: Tag, ptag: nat)
    requires ValidTag(tag) && ptag < WORD
    ensures Xor(WordFor(tag, ptag), ptag) == Pack(tag) < LOW31 && Unpack(Pack(tag)) == tag
  {
    UnpackPack(tag);
    XorCancel(Pack(tag), ptag);
  }

  // A tag written behind a head is what the scan reads there.
  lemma WrittenTag(img: seq<byte>, h: Head, tag: Tag, data: seq<byte>)
    requires ValidTag(tag) && !IsCrc(tag) && 4 + |data| == DSize(tag)
    requires h.off + DSize(tag) + 8 <= |img| && h.ptag < WORD
    ensures var out := Put(img, h.off, ToBe32(WordFor(tag, h.ptag)) + data);
      var end := h.off + DSize(tag);
      TagAt(out, h) == Go(Cell(Entry(tag, data), false), Head(end, Pack(tag), CrcOf(h.crc, out[h.off..end])))
  {
    var w := WordFor(tag, h.ptag);
    PutParts(img, h.off, ToBe32(w), data);
    var out := Put(img, h.off, ToBe32(w) + data);
    WordReads(tag, h.ptag);
    hide Xor, Pack, Unpack, CrcOf, ToBe32, Put, WordFor;
    FromToBe32(out, h.off, w);
  }

  // The bytes of a checksum tag with its checksum
  function CheckBytes(tag: Tag, h: Head): (s: seq<byte>)
    requires ValidTag(tag) && h.ptag < WORD && h.crc < WORD
    ensures |s| == 8
  {
    var word := ToBe32(WordFor(tag, h.ptag));
    CrcSmall(h.crc, word);
    word + Le32(CrcOf(h.crc, word))
  }

  // So is a checksum tag, and its checksum validates.
  lemma CheckAt(out: seq<byte>, h: Head, tag: Tag)
    requires ValidTag(tag) && IsCrc(tag) && 4 <= tag.size && !IsDelete(tag)
    requires h.off + DSize(tag) <= |out| && h.ptag < WORD
    requires out[h.off..h.off + 4] == ToBe32(WordFor(tag, h.ptag))
    requires FromLe32(out[h.off + 4..h.off + 8]) == CrcOf(h.crc, ToBe32(WordFor(tag, h.ptag)))
    ensures var end := h.off + DSize(tag);
      TagAt(out, h) == Go(Cell(Entry(tag, out[h.off + 4..end]), true), Head(end, Turned(Pack(tag), tag), INIT))
  {
    WordReads(tag, h.ptag);
    hide Xor, Pack, Unpack, CrcOf, ToBe32, WordFor, FromLe32, Turned;
    FromToBe32(out, h.off, WordFor(tag, h.ptag));
  }

  lemma WrittenCheck(img: seq<byte>, h: Head, tag: Tag)
    requires ValidTag(tag) && IsCrc(tag) && 4 <= tag.size && !IsDelete(tag)
    requires h.off + DSize(tag) <= |img| && h.ptag < WORD && h.crc < WORD
    ensures var out := Put(img, h.off, CheckBytes(tag, h));
      var end := h.off + DSize(tag);
      TagAt(out, h) == Go(Cell(Entry(tag, out[h.off + 4..end]), true), Head(end, Turned(Pack(tag), tag), INIT))
  {
    var word := ToBe32(WordFor(tag, h.ptag));
    CrcSmall(h.crc, word);
    var four := Le32(CrcOf(h.crc, word));
    assert CheckBytes(tag, h) == word + four;
    PutParts(img, h.off, word, four);
    FromToLe32(CrcOf(h.crc, word));
    hide IsCrc, Pack, CrcOf, ToBe32, Put, WordFor, Le32, FromLe32, CheckBytes, TagAt, Turned;
    var out := Put(img, h.off, CheckBytes(tag, h));
    CheckAt(out, h, tag);
  }

  // ---- What later programming leaves alone ------------------------------------------

  // A checksum tag with room for its checksum
  predicate Whole(c: Cell) {
    IsCrc(c.e.tag) ==> 4 <= c.e.tag.size && !IsDelete(c.e.tag)
  }

  predicate AllWhole(cells: seq<Cell>) {
    forall k :: 0 <= k < |cells| ==> Whole(cells[k])
  }

  lemma SameBytes(a: seq<byte>, b: seq<byte>, n: nat, i: nat, j: nat)
    requires n <= |a| == |b| && a[..n] == b[..n] && i <= j <= n
    ensures a[i..j] == b[i..j]
  {
    assert a[i..j] == a[..n][i..j] && b[i..j] == b[..n][i..j];
  }

  lemma SameStart(a: seq<byte>, b: seq<byte>, m: nat, n: nat)
    requires m <= n <= |a| == |b| && a[..n] == b[..n]
    ensures a[..m] == b[..m]
  {
    assert a[..m] == a[..n][..m] && b[..m] == b[..n][..m];
  }

  // The first n bytes of a block are as they were.
  ghost predicate Kept(was: seq<byte>, img: seq<byte>, n: nat) {
    n <= |was| == |img| && img[..n] == was[..n]
  }

  lemma KeptSame(img: seq<byte>, n: nat)
    requires n <= |img|
    ensures Kept(img, img, n)
  {
  }

  lemma KeptLess(a: seq<byte>, b: seq<byte>, m: nat, n: nat)
    requires Kept(a, b, n) && m <= n
    ensures Kept(a, b, m)
  {
    SameStart(a, b, m, n);
  }

  lemma KeptTwice(a: seq<byte>, b: seq<byte>, c: seq<byte>, m: nat, n: nat)
    requires Kept(a, b, m) && Kept(b, c, n) && m <= n
    ensures Kept(a, c, m)
  {
    SameStart(b, c, m, n);
  }

  lemma SameWord(a: seq<byte>, b: seq<byte>, off: nat)
    requires off + 4 <= |a| == |b| && a[off..off + 4] == b[off..off + 4]
    ensures Be32(a, off) == Be32(b, off)
  {
    var x, y := a[off..off + 4], b[off..off + 4];
    assert a[off] == x[0] && a[off + 1] == x[1] && a[off + 2] == x[2] && a[off + 3] == x[3];
    assert b[off] == y[0] && b[off + 1] == y[1] && b[off + 2] == y[2] && b[off + 3] == y[3];
  }

  lemma TagSize(img: seq<byte>, h: Head)
    requires TagAt(img, h).Go? && Whole(TagAt(img, h).cell)
    ensures h.off + 4 <= TagAt(img, h).next.off <= |img|
    ensures IsCrc(TagAt(img, h).cell.e.tag) ==> h.off + 8 <= TagAt(img, h).next.off
  {
    NextShape(img, h);
    hide TagAt, IsCrc;
  }

  lemma TagFrame(a: seq<byte>, b: seq<byte>, h: Head)
    requires |a| == |b| && TagAt(a, h).Go? && Whole(TagAt(a, h).cell)
    requires TagAt(a, h).next.off <= |a| && a[..TagAt(a, h).next.off] == b[..TagAt(a, h).next.off]
    ensures TagAt(b, h) == TagAt(a, h)
  {
    hide Be32, Xor, Unpack, CrcOf, FromLe32, IsCrc, DSize, Type1, Turned;
    var n := TagAt(a, h).next.off;
    TagSize(a, h);
    hide Whole;
    SameBytes(a, b, n, h.off, h.off + 4);
    SameBytes(a, b, n, h.off, n);
    SameBytes(a, b, n, h.off + 4, n);
    SameWord(a, b, h.off);
    if IsCrc(TagAt(a, h).cell.e.tag) {
      SameBytes(a, b, n, h.off + 4, h.off + 8);
    }
  }

  lemma WholeLast(cells: seq<Cell>)
    requires cells != [] && AllWhole(cells)
    ensures AllWhole(cells[..|cells| - 1]) && Whole(cells[|cells| - 1])
  {
    hide Whole;
  }

  lemma FrameStep(a: seq<byte>, b: seq<byte>, h: Head, front: seq<Cell>, c: Cell)
    requires |a| == |b| && Reads(b, h, front) && Nth(b, h, |front|) == Nth(a, h, |front|)
    requires TagAt(a, Nth(a, h, |front|)) == Go(c, Nth(a, h, |front| + 1)) && Passes(c) && Whole(c)
    requires Nth(a, h, |front| + 1).off <= |a| && a[..Nth(a, h, |front| + 1).off] == b[..Nth(a, h, |front| + 1).off]
    ensures Reads(b, h, front + [c]) && Nth(b, h, |front| + 1) == Nth(a, h, |front| + 1)
  {
    hide TagAt, Reads, Nth, Whole, Passes;
    TagFrame(a, b, Nth(a, h, |front|));
    ReadsOneMore(b, h, front, c);
  }

  // A scan does not see bytes behind what it has passed.
  lemma {:induction false} ReadsFrame(a: seq<byte>, b: seq<byte>, h: Head, cells: seq<Cell>)
    requires |a| == |b| && Reads(a, h, cells) && AllWhole(cells)
    requires Nth(a, h, |cells|).off <= |a| && a[..Nth(a, h, |cells|).off] == b[..Nth(a, h, |cells|).off]
    ensures Reads(b, h, cells) && Nth(b, h, |cells|) == Nth(a, h, |cells|)
  {
    hide TagAt, Reads, Nth, Whole, AllWhole, Passes;
    if cells == [] {
      ReadsNothing(a, h);
      ReadsNothing(b, h);
    } else {
      var k := |cells| - 1;
      var p, n := ReadsLast(a, h, cells);
      WholeLast(cells);
      TagSize(a, p);
      SameStart(a, b, p.off, n.off);
      ReadsFrame(a, b, h, cells[..k]);
      FrameStep(a, b, h, cells[..k], cells[k]);
      assert cells == cells[..k] + [cells[k]];
    }
  }

  // ---- A commit under way ---------------------------------------------------------------

  // A scan of the block passes the cells and gets to the head.
  ghost predicate ReadSoFar(img: seq<byte>, cells: seq<Cell>, h: Head) {
    && |img| >= 4 && AllWhole(cells)
    && Reads(img, Start(img), cells) && Nth(img, Start(img), |cells|) == h
  }

  lemma StartSame(a: seq<byte>, b: seq<byte>)
    requires 4 <= |a| == |b| && a[..4] == b[..4]
    ensures Start(a) == Start(b)
  {
  }

  lemma ReadOn(was: seq<byte>, img: seq<byte>, cells: seq<Cell>, h: Head, c: Cell, next: Head)
    requires ReadSoFar(was, cells, h) && 4 <= h.off && Kept(was, img, h.off)
    requires TagAt(img, h) == Go(c, next) && Passes(c) && Whole(c)
    ensures ReadSoFar(img, cells + [c], next)
  {
    hide TagAt, Passes, Whole, Reads, Nth;
    SameStart(was, img, 4, h.off);
    StartSame(was, img);
    ReadsFrame(was, img, Start(was), cells);
    ReadsOneMore(img, Start(img), cells, c);
  }

  // A block being committed to.  `cells` is what a scan of the bytes in front
  // of `off` passes.
  class BlockCommit {
    var img: seq<byte>
    var off: nat
    var ptag: nat
    var crc: nat
    const begin: nat
    const end: nat
    ghost var cells: seq<Cell>

    function Here(): Head
      reads this
    {
      Head(off, ptag, crc)
    }

    ghost predicate Valid()
      reads this
    {
      && begin <= off && 4 <= off <= |img| && end + 8 <= |img|
      && ptag < WORD && crc < WORD
      && ReadSoFar(img, cells, Here())
    }

    // The running checksum covers everything from an offset on.
    ghost predicate Fed(from: nat)
      reads this
    {
      from <= off <= |img| && crc == CrcOf(INIT, img[from..off])
    }

    // Commit behind the last commit of a fetched block.
    constructor Append(block: seq<byte>, off0: nat, etag: nat, limit: nat, ghost read: seq<Cell>)
      requires 4 <= off0 <= |block| && etag < WORD && limit + 8 <= |block|
      requires ReadSoFar(block, read, Head(off0, etag, INIT))
      ensures Valid() && Fed(begin)
      ensures img == block && off == begin == off0 && end == limit && cells == read
    {
      img, off, ptag, crc := block, off0, etag, INIT;
      begin, end, cells := off0, limit, read;
    }

    // Commit to an erased block, which gets its revision first.
    constructor Fresh(block: seq<byte>, rev: nat, limit: nat)
      requires limit + 8 <= |block| && rev < WORD
      ensures Valid() && Fed(begin)
      ensures |img| == |block| && img[..4] == Le32(rev) && off == 4 && begin == 0 && end == limit && cells == []
    {
      var head := Put(block, 0, Le32(rev));
      var c := LfsCrc.Crc(INIT, Le32(rev));
      img, off, ptag, crc := head, 4, INIT, c;
      begin, end, cells := 0, limit, [];
      assert head[0..4] == head[..4] == Le32(rev);
    }

    // lfs_dir_commitprog, for a whole tag: program bytes that read as one cell.
    method Program(bytes: seq<byte>, ghost c: Cell, next: Head)
      requires Valid() && off + |bytes| <= next.off <= |img|
      requires TagAt(Put(img, off, bytes), Here()) == Go(c, next) && Passes(c) && Whole(c)
      requires next.ptag < WORD && next.crc < WORD
      modifies this
      ensures Valid() && |img| == |old(img)|
      ensures img == Put(old(img), old(off), bytes) && Here() == next
      ensures cells == old(cells) + [c]
    {
      PutKept(img, off, bytes);
      hide ReadSoFar, TagAt, Passes, Whole, Put, Kept;
      ghost var was := img;
      img := Put(img, off, bytes);
      ReadOn(was, img, cells, Here(), c, next);
      off, ptag, crc := next.off, next.ptag, next.crc;
      cells := cells + [c];
    }

    // lfs_dir_commitattr
    method CommitAttr(tag: Tag, data: seq<byte>, ghost from: nat) returns (ok: bool)
      requires Valid() && Fed(from)
      requires ValidTag(tag) && !IsCrc(tag) && 4 + |data| == DSize(tag)
      modifies this
      ensures Valid() && Fed(from)
      ensures ok <==> old(off) + DSize(tag) <= end
      ensures !ok ==> img == old(img) && Here() == old(Here()) && cells == old(cells)
      ensures ok ==>
                && img == Put(old(img), old(off), ToBe32(WordFor(tag, old(ptag))) + data)
                && off == old(off) + DSize(tag) && cells == old(cells) + [Cell(Entry(tag, data), false)]
    {
      // does it fit?
      var dsize := DSize(tag);
      if off + dsize > end {
        return false;
      }
      ghost var was, h := img, Here();
      var word := ToBe32(WordFor(tag, ptag));
      var c := LfsCrc.Crc(crc, word);
      c := LfsCrc.Crc(c, data);
      CrcConcat(crc, word, data);
      PutParts(img, off, word, data);
      WrittenTag(img, h, tag, data);
      UnpackPack(tag);
      hide CrcOf, WordFor, ToBe32, Pack, Put, TagAt;
      Program(word + data, Cell(Entry(tag, data), false), Head(off + dsize, Pack(tag), c));
      FedMore(was, img, from, h.off, off);
      return true;
    }

    // A checksum tag that reaches to noff, followed by the checksum.  It turns
    // the valid bit if the byte behind it calls for that.
    method CommitCheck(noff: nat, turn: bool, ghost from: nat) returns (sum: nat, ghost e: Entry)
      requires Valid() && Fed(from)
      requires off + 8 <= noff <= |img| && noff - (off + 4) <= 0x3fe
      modifies this
      ensures Valid() && |img| == |old(img)| && off == noff && crc == INIT && (ptag >= LOW31 <==> turn)
      ensures cells == old(cells) + [Cell(e, true)] && e.tag == CheckTag(old(off), noff, turn)
      ensures Checked(old(img), img, old(off), noff, from, sum)
    {
      ghost var was, h := img, Here();
      var tag := CheckTag(off, noff, turn);
      CheckTagIs(off, noff, turn);
      var word := ToBe32(WordFor(tag, ptag));
      sum := LfsCrc.Crc(crc, word);
      e := CheckRead(was, h, noff, turn);
      CheckBytesAre(tag, h);
      FromToLe32(sum);
      Summing(was, off, word, Le32(sum), from, noff, sum);
      hide CrcOf, WordFor, ToBe32, Pack, Put, TagAt, Le32, FromLe32, CheckTag, Turned, IsCrc, CheckBytes;
      hide Passes, Whole, ValidTag, DSize, ReadSoFar, Checked;
      Program(word + Le32(sum), Cell(e, true), Head(noff, Turned(Pack(tag), tag), INIT));
    }

    // The erase checksum, of the program unit at noff
    method CommitErase(noff: nat, prog: nat, ghost from: nat) returns (ok: bool, ghost checks: seq<Cell>)
      requires Valid() && Fed(from) && 0 < prog < WORD && off + 20 <= noff && noff + prog <= |img|
      modifies this
      ensures Valid() && Fed(from) && |img| == |old(img)| && Kept(old(img), img, old(off)) && old(off) <= off
      ensures !ok ==> end + 8 < |img| && checks == [] && img == old(img)
      ensures ok ==> off + 8 <= noff && checks == [FcrcCell(img, noff, prog)] && AllChecks(checks)
      ensures cells == old(cells) + checks && KeptBehind(old(img), img, noff)
    {
      hide Le32, CrcOf, TagAt, ReadSoFar, WordFor, ToBe32, Put;
      var fcrc := LfsCrc.Crc(INIT, img[noff..noff + prog]);
      var tag, data := Tag(TYPE_FCRC, ID_NONE, 8), Le32(prog) + Le32(fcrc);
      FcrcTag();
      ghost var was, h := img, Here();
      assert Cell(Entry(tag, data), false) == FcrcCell(was, noff, prog);
      hide FcrcCell, AllChecks, IsCrc;
      PutBehind(img, off, ToBe32(WordFor(tag, ptag)) + data, noff);
      PutKept(img, off, ToBe32(WordFor(tag, ptag)) + data);
      KeptSame(img, off);
      hide Kept;
      ok := CommitAttr(tag, data, from);
      if ok {
        ErasedStays(was, img, noff, prog);
        checks := [Cell(Entry(tag, data), false)];
      } else {
        checks := [];
      }
    }

    // The erase checksum, if the commit ends here and another one could
    // follow; and whether the byte behind the commit calls for a turn of the
    // valid bit.
    method CommitFcrc(noff: nat, stop: nat, prog: nat, ghost from: nat)
      returns (ok: bool, turn: bool, ghost checks: seq<Cell>)
      requires Valid() && Fed(from) && 0 < prog < WORD
      requires off + 8 <= noff <= stop <= |img|
      requires noff == stop ==> stop == |img| || (stop + prog <= |img| && Room(off, stop))
      modifies this
      ensures Valid() && Fed(from) && |img| == |old(img)| && Kept(old(img), img, old(off)) && old(off) <= off
      ensures !ok ==> end + 8 < |img|
      ensures ok ==> off + 8 <= noff
      ensures cells == old(cells) + checks && AllChecks(checks)
      ensures KeptBehind(old(img), img, noff)
      ensures ok ==> checks == if noff >= stop && noff + prog <= |img| then [FcrcCell(img, noff, prog)] else []
      ensures turn <==> noff == stop < |img| && img[noff] < 0x80
    {
      hide CrcOf, TagAt, ReadSoFar, FcrcCell, Kept;
      KeptSame(img, off);
      ok, turn, checks := true, false, [];
      if noff >= stop && noff + prog <= |img| {
        turn := img[noff] < 0x80;
        ghost var was := img;
        ok, checks := CommitErase(noff, prog, from);
        BehindByte(was, img, noff);
      }
    }

    // One round of lfs_dir_commitcrc: a checksum tag that reaches to noff, and
    // in the last round the erase checksum in front of it.
    method CommitRound(noff: nat, stop: nat, prog: nat, ghost from: nat)
      returns (ok: bool, at: nat, sum: nat, ghost checks: seq<Cell>)
      requires Valid() && Fed(from) && 0 < prog < WORD
      requires Reaches(off, noff, stop) && stop <= |img|
      requires noff == stop ==> stop == |img| || (stop + prog <= |img| && Room(off, stop))
      modifies this
      ensures Valid() && |img| == |old(img)| && Kept(old(img), img, old(off))
      ensures end + 8 == |img| ==> ok
      ensures cells == old(cells) + checks
      ensures ok ==> Closing(checks) && RoundEnds(img, old(off), Here(), stop)
      ensures ok ==> 0 < at && at + 4 <= off && Summed(img, from, at, sum)
      ensures KeptBehind(old(img), img, noff) && (ok ==> off == noff && Names(img, off, stop, prog, checks))
    {
      var turn;
      hide CrcOf, TagAt, ReadSoFar, FromLe32, Kept, Room, RoundEnds, Closing, AllChecks, Names, KeptBehind, FcrcCell;
      ghost var off0 := off;
      ok, turn, checks := CommitFcrc(noff, stop, prog, from);
      at, sum := off + 4, 0;
      if ok {
        ghost var was := img;
        ghost var e;
        sum, e := CommitCheck(noff, turn, from);
        KeptTwice(old(img), was, img, off0, at - 4);
        hide CheckTag, IsCrc, Passes;
        ClosingMore(checks, at - 4, noff, turn, e);
        RoundNames(was, img, at - 4, noff, stop, prog, turn, checks, e);
        BehindTwice(old(img), was, img, noff, noff);
        checks := checks + [Cell(e, true)];
        RoundOver(was, img, off0, Here(), stop, turn);
      }
    }

    // The body of the loop of lfs_dir_commitcrc
    method NextRound(stop: nat, prog: nat, off1: nat, crc1: nat,
                     ghost off0: nat, ghost from: nat, ghost checks0: seq<Cell>)
      returns (ok: bool, off1': nat, crc1': nat, ghost part: seq<Cell>)
      requires Valid() && Fed(from) && 0 < prog < WORD
      requires off0 <= off < stop <= |img| && off0 + 8 <= stop && (stop == |img| || stop + prog <= |img|)
      requires Rounds(img, off0, Here(), stop, begin, from, off1, crc1, checks0)
      modifies this
      ensures Valid() && |img| == |old(img)| && Kept(old(img), img, off0)
      ensures end + 8 == |img| ==> ok
      ensures cells == old(cells) + part
      ensures ok ==> old(off) < off <= stop && Fed(off)
      ensures ok ==> Rounds(img, off0, Here(), stop, begin, off, off1', crc1', checks0 + part)
      ensures KeptBehind(old(img), img, stop) && (ok ==> Names(img, off, stop, prog, part))
    {
      ghost var was, h := img, Here();
      RoundsRoom(img, off0, Here(), stop, begin, from, off1, crc1, checks0);
      var reach := Min(stop - (off + 4), 0x3fe) + (off + 4);
      // more to come?  leave room for it
      var noff := if reach < stop then Min(reach, stop - 20) else reach;
      RoundReaches(off, stop, noff, reach);
      hide CrcOf, TagAt, ReadSoFar, FromLe32, Kept, Room, RoundEnds, Closing, Summed, Reaches, Rounds, Names,
        KeptBehind;
      var at, sum;
      ok, at, sum, part := CommitRound(noff, stop, prog, from);
      KeptLess(was, img, off0, h.off);
      BehindLess(was, img, noff, stop);
      off1', crc1' := if off1 == 0 then at else off1, if off1 == 0 then sum else crc1;
      if ok {
        RoundsMore(was, img, off0, h, Here(), stop, begin, from, off1, crc1, checks0, at, sum, part);
        FedNothing(img, off);
      }
    }

    // The loop of lfs_dir_commitcrc: checksum tags up to `stop`
    method CommitChecks(stop: nat, prog: nat) returns (ok: bool, off1: nat, crc1: nat, ghost checks: seq<Cell>)
      requires Valid() && Fed(begin) && 0 < prog < WORD
      requires off + 8 <= stop <= |img| && (stop == |img| || (Room(off, stop) && stop + prog <= |img|))
      modifies this
      ensures Valid() && |img| == |old(img)| && Kept(old(img), img, old(off))
      ensures end + 8 == |img| ==> ok
      ensures cells == old(cells) + checks
      ensures ok ==> off == stop && Rounds(img, old(off), Here(), stop, begin, stop, off1, crc1, checks)
      ensures KeptBehind(old(img), img, stop) && (ok ==> NamesErased(img, stop, prog, checks))
    {
      ghost var was, off0, from := img, off, begin;
      ok, off1, crc1, checks := true, 0, 0, [];
      assert Kept(was, img, off0) && KeptBehind(was, img, stop) && Names(img, off, stop, prog, checks);
      hide CrcOf, TagAt, ReadSoFar, FromLe32, Kept, Room, RoundEnds, Closing, Summed, KeptBehind, NamesErased;
      RoundsStart(img, off, Here(), stop, begin);
      hide Rounds;
      while off < stop
        invariant Valid() && Fed(from) && |img| == |was| && off0 <= off <= stop
        invariant Kept(was, img, off0) && cells == old(cells) + checks
        invariant Rounds(img, off0, Here(), stop, begin, from, off1, crc1, checks)
        invariant off == stop ==> from == stop
        invariant KeptBehind(was, img, stop) && Names(img, off, stop, prog, checks)
      {
        ghost var mid, at := img, off;
        ghost var part;
        ghost var before := checks;
        ok, off1, crc1, part := NextRound(stop, prog, off1, crc1, off0, from, checks);
        SeqAssoc(old(cells), checks, part);
        checks := checks + part;
        KeptTwice(was, mid, img, off0, off0);
        BehindTwice(was, mid, img, stop, stop);
        if !ok {
          return;
        }
        NamesMore(mid, img, at, off, stop, prog, before, part);
        from := off;
      }
    }

    // lfs_dir_commitcrc: checksum tags up to the end of a program unit, and
    // then the first checksum is read back.
    method CommitCrc(prog: nat) returns (ok: bool, ghost checks: seq<Cell>)
      requires Valid() && Fed(begin) && off + 8 <= |img| && 0 < prog < WORD && Cache.Aligned(|img|, prog)
      modifies this
      ensures Valid() && |img| == |old(img)| && Kept(old(img), img, old(off))
      ensures end + 8 == |img| ==> ok
      ensures cells == old(cells) + checks
      ensures ok ==> Closing(checks) && crc == INIT && Cache.Aligned(off, prog)
      ensures ok ==> TagAt(img, Here()).Stop?
      ensures ok ==> old(off) <= off && KeptBehind(old(img), img, off) && NamesErased(img, off, prog, checks)
    {
      var stop := Cache.AlignUp(Min(off + 20, |img|), prog);
      StopFits(off, |img|, prog);
      ghost var off0 := off;
      var off1, crc1;
      hide CrcOf, TagAt, ReadSoFar, FromLe32, Kept, Room, RoundEnds, Closing, Summed, Rounds, KeptBehind, NamesErased;
      ok, off1, crc1, checks := CommitChecks(stop, prog);
      if !ok {
        return;
      }
      RoundsDone(img, off0, Here(), stop, begin, stop, off1, crc1, checks);

      // read the commit back
      var c := LfsCrc.Crc(INIT, img[begin..off1]);
      if c != crc1 {
        return false, checks;
      }
      // and the checksum behind it
      c := LfsCrc.Crc(c, img[off1..off1 + 4]);
      ok := c == 0;
    }

    // lfs_dir_commit_commit: the next tag
    method CommitNext(tags: seq<Entry>, i: nat, ghost before: seq<Cell>) returns (ok: bool)
      requires Valid() && Fed(begin) && AllSized(tags) && i < |tags|
      requires cells == CellsTo(before, tags, i)
      modifies this
      ensures Valid() && Fed(begin) && |img| == |old(img)| && Kept(old(img), img, old(off))
      ensures ok <==> old(off) + DSize(tags[i].tag) <= end
      ensures ok ==> off == old(off) + DSize(tags[i].tag) && cells == CellsTo(before, tags, i + 1)
      ensures !ok ==> off == old(off)
      ensures off <= |img| && KeptBehind(old(img), img, off)
    {
      TagsMore(before, tags, i);
      var e := tags[i];
      hide CrcOf, TagAt, ReadSoFar, CellsTo, Sized, AllSized, IsCrc, Put, WordFor, ToBe32;
      ghost var word := ToBe32(WordFor(e.tag, ptag)) + e.data;
      if off + DSize(e.tag) <= end {
        PutKept(img, off, word);
        PutBehind(img, off, word, off + DSize(e.tag));
      }
      KeptSame(img, off);
      assert KeptBehind(img, img, off);
      hide Kept, KeptBehind;
      ok := CommitAttr(e.tag, e.data, begin);
    }

    // The tags of a commit, as lfs_dir_traverse hands them over
    method CommitTags(tags: seq<Entry>) returns (ok: bool)
      requires Valid() && Fed(begin) && AllSized(tags)
      modifies this
      ensures Valid() && Fed(begin) && |img| == |old(img)| && Kept(old(img), img, old(off)) && old(off) <= off
      ensures KeptBehind(old(img), img, off)
      ensures ok <==> old(off) + TotalSize(tags) <= end || tags == []
      ensures ok ==> cells == old(cells) + Cells(tags, false) && if tags == [] then off == old(off) else off <= end
    {
      ghost var was, before := img, cells;
      var i: nat := 0;
      CommitStarts(was, off, before, tags);
      TagsDone(before, tags);
      assert KeptBehind(was, img, off);
      hide CrcOf, TagAt, ReadSoFar, Kept, KeptBehind, TotalSize, SizeTo, CellsTo, Cells, AllSized, DSize;
      while i < |tags|
        invariant i <= |tags| && Valid() && Fed(begin) && |img| == |was|
        invariant Kept(was, img, old(off)) && off == old(off) + SizeTo(tags, i)
        invariant if i > 0 then off <= end else off == old(off)
        invariant cells == CellsTo(before, tags, i) && KeptBehind(was, img, off)
      {
        SizeMore(tags, i);
        ghost var mid, at := img, off;
        ok := CommitNext(tags, i, before);
        KeptTwice(was, mid, img, old(off), at);
        BehindTwice(was, mid, img, at, off);
        if !ok {
          return;
        }
        i := i + 1;
      }
      ok := true;
    }

    // A whole commit: its tags and the checksum.  It fails exactly when the
    // tags do not fit.
    method Commit(tags: seq<Entry>, prog: nat) returns (ok: bool, ghost checks: seq<Cell>)
      requires Valid() && Fed(begin) && off + 8 <= |img| < WORD && AllSized(tags)
      requires 0 < prog < WORD && Cache.Aligned(|img|, prog)
      modifies this
      ensures Valid() && |img| == |old(img)| && Kept(old(img), img, old(off))
      ensures end + 8 == |img| ==> (ok <==> old(off) + TotalSize(tags) <= end || tags == [])
      ensures ok ==> Closing(checks) && TagAt(img, Here()).Stop? && crc == INIT && Cache.Aligned(off, prog)
      ensures ok ==> cells == old(cells) + (Cells(tags, false) + checks)
      ensures ok ==> KeptBehind(old(img), img, off) && NamesErased(img, off, prog, checks)
    {
      hide CrcOf, TagAt, ReadSoFar, Kept, Closing, TotalSize, Cells, Sized, AllSized, Cache.Aligned;
      hide KeptBehind, NamesErased;
      checks := [];
      ok := CommitTags(tags);
      if !ok {
        return;
      }
      ghost var was, mid, at := old(img), img, off;
      ok, checks := CommitCrc(prog);
      KeptTwice(was, mid, img, old(off), at);
      if ok {
        BehindTwice(was, mid, img, at, off);
      }
      SeqAssoc(old(cells), Cells(tags, false), checks);
    }
  }

  // A tag as a commit can write it
  predicate Sized(e: Entry) {
    && ValidTag(e.tag) && !IsCrc(e.tag) && 4 + |e.data| == DSize(e.tag)
    && (Type1(e.tag.typ) == TYPE_TAIL ==> e.tag.size == 8)
  }

  predicate AllSized(tags: seq<Entry>) {
    forall i :: 0 <= i < |tags| ==> Sized(tags[i])
  }

  // The first i tags: their size, and the cells with them
  ghost function SizeTo(tags: seq<Entry>, i: nat): nat
    requires i <= |tags|
  {
    TotalSize(tags[..i])
  }

  ghost function CellsTo(before: seq<Cell>, tags: seq<Entry>, i: nat): seq<Cell>
    requires i <= |tags|
  {
    before + Cells(tags[..i], false)
  }

  lemma CommitStarts(img: seq<byte>, off: nat, cells: seq<Cell>, tags: seq<Entry>)
    requires off <= |img|
    ensures SizeTo(tags, 0) == 0 && cells == CellsTo(cells, tags, 0) && Kept(img, img, off)
  {
    assert tags[..0] == [];
  }

  lemma TagsDone(before: seq<Cell>, tags: seq<Entry>)
    ensures SizeTo(tags, |tags|) == TotalSize(tags) && CellsTo(before, tags, |tags|) == before + Cells(tags, false)
  {
    assert tags[..|tags|] == tags;
  }

  lemma SizeMore(tags: seq<Entry>, i: nat)
    requires i < |tags|
    ensures SizeTo(tags, i) + DSize(tags[i].tag) == SizeTo(tags, i + 1) <= TotalSize(tags)
  {
    assert tags[..i + 1][..i] == tags[..i];
    SizeAtLeast(tags, i + 1);
  }

  lemma TagsMore(before: seq<Cell>, tags: seq<Entry>, i: nat)
    requires i < |tags| && AllSized(tags)
    ensures ValidTag(tags[i].tag) && !IsCrc(tags[i].tag) && 4 + |tags[i].data| == DSize(tags[i].tag)
    ensures CellsTo(before, tags, i + 1) == CellsTo(before, tags, i) + [Cell(tags[i], false)]
    ensures Entry(tags[i].tag, tags[i].data) == tags[i]
  {
    assert tags[..i + 1][..i] == tags[..i];
    assert Sized(tags[i]);
    hide IsCrc;
    SeqAssoc(before, Cells(tags[..i], false), [Cell(tags[i], false)]);
  }

  // A checksum tag at `off` can reach to noff, and leaves room for what is
  // to come.
  predicate Reaches(off: nat, noff: nat, stop: nat) {
    off + 8 <= noff <= stop && noff - (off + 4) <= 0x3fe && (noff < stop ==> Room(noff, stop))
  }

  // Room for another round, the erase checksum included
  predicate Room(off: nat, stop: nat) {
    off + 20 <= stop
  }

  // The checksum of everything from `from` on is in the block at `at`.
  ghost predicate Summed(img: seq<byte>, from: nat, at: nat, sum: nat) {
    && from <= at && at + 4 <= |img|
    && sum == CrcOf(INIT, img[from..at]) < WORD && FromLe32(img[at..at + 4]) == sum
  }

  // Where a round ends; behind the last one the scan stops.
  ghost predicate RoundEnds(img: seq<byte>, off0: nat, h: Head, stop: nat) {
    && off0 < h.off <= stop <= |img| && h.crc == INIT
    && (h.off < stop ==> Room(h.off, stop))
    && (h.off == stop ==> TagAt(img, h).Stop?)
  }

  // What is summed up stays so, and is read back as zero.
  lemma SummedStays(was: seq<byte>, img: seq<byte>, from: nat, at: nat, sum: nat, n: nat)
    requires Summed(was, from, at, sum) && at + 4 <= n && Kept(was, img, n)
    ensures Summed(img, from, at, sum)
  {
    SameBytes(was, img, n, from, at);
    SameBytes(was, img, n, at, at + 4);
    hide CrcOf, FromLe32;
  }

  lemma SummedCloses(img: seq<byte>, from: nat, at: nat, sum: nat)
    requires Summed(img, from, at, sum)
    ensures CrcOf(sum, img[at..at + 4]) == 0
  {
    hide CrcOf, FromLe32;
    CrcConcat(INIT, img[from..at], img[at..at + 4]);
    ChecksumCloses(INIT, img[from..at], img[at..at + 4]);
  }

  lemma RoundOver(was: seq<byte>, img: seq<byte>, off0: nat, h: Head, stop: nat, turn: bool)
    requires |was| == |img| && off0 < h.off <= stop <= |img| && h.ptag < WORD
    requires (h.off < stop ==> Room(h.off, stop)) && h.crc == INIT
    requires KeptBehind(was, img, h.off) && (h.ptag >= LOW31 <==> turn)
    requires turn <==> h.off == stop < |was| && was[h.off] < 0x80
    ensures RoundEnds(img, off0, h, stop)
  {
    hide TagAt;
    if h.off == stop {
      if h.off < |img| {
        BehindByte(was, img, h.off);
      }
      StopsHere(img, h);
    }
  }

  lemma StopFits(off: nat, block: nat, prog: nat)
    requires prog > 0 && off + 8 <= block && Cache.Aligned(block, prog)
    ensures var stop := Cache.AlignUp(Min(off + 20, block), prog);
      && Cache.Aligned(stop, prog) && off + 8 <= stop <= block
      && (stop == block || stop + prog <= block) && (stop == block || Room(off, stop))
  {
    var low := Min(off + 20, block);
    var stop := Cache.AlignUp(low, prog);
    Cache.AlignUpAligned(low, prog);
    if stop < block {
      Cache.AlignedGap(stop, block, prog);
    } else if stop > block {
      Cache.AlignedGap(block, stop, prog);
    }
  }

  // The end of a round, as lfs_dir_commitcrc computes it, can be reached.
  lemma RoundReaches(off: nat, stop: nat, noff: nat, reach: nat)
    requires off + 8 <= stop && reach == Min(stop - (off + 4), 0x3fe) + (off + 4)
    requires reach < stop ==> stop >= 20 && noff == Min(reach, stop - 20)
    requires reach >= stop ==> noff == reach
    ensures Reaches(off, noff, stop)
  {
  }

  // Between the rounds: the first checksum is `crc1` at `off1`, once there is
  // one, and the running checksum starts afresh at `from`.
  ghost predicate Rounds(img: seq<byte>, off0: nat, h: Head, stop: nat, begin: nat, from: nat,
                         off1: nat, crc1: nat, checks: seq<Cell>) {
    if off1 == 0 then checks == [] && h.off == off0 && from == begin && (stop == |img| || Room(off0, stop))
    else
      && Closing(checks) && RoundEnds(img, off0, h, stop) && from == h.off
      && off1 + 4 <= h.off && Summed(img, begin, off1, crc1)
  }

  lemma RoundsStart(img: seq<byte>, off: nat, h: Head, stop: nat, begin: nat)
    requires h.off == off && (stop == |img| || Room(off, stop))
    ensures Rounds(img, off, h, stop, begin, begin, 0, 0, [])
  {
  }

  lemma RoundsRoom(img: seq<byte>, off0: nat, h: Head, stop: nat, begin: nat, from: nat,
                   off1: nat, crc1: nat, checks: seq<Cell>)
    requires Rounds(img, off0, h, stop, begin, from, off1, crc1, checks) && h.off < stop && off0 + 8 <= stop
    ensures h.off + 8 <= stop && (stop == |img| || Room(h.off, stop))
  {
    hide Closing, Summed;
  }

  lemma RoundsMore(was: seq<byte>, img: seq<byte>, off0: nat, h0: Head, h: Head, stop: nat, begin: nat, from: nat,
                   off1: nat, crc1: nat, checks: seq<Cell>, at: nat, sum: nat, part: seq<Cell>)
    requires Rounds(was, off0, h0, stop, begin, from, off1, crc1, checks)
    requires off0 <= h0.off && Kept(was, img, h0.off)
    requires Closing(part) && RoundEnds(img, h0.off, h, stop) && 0 < at && at + 4 <= h.off && Summed(img, from, at, sum)
    ensures if off1 == 0 then Rounds(img, off0, h, stop, begin, h.off, at, sum, checks + part)
            else Rounds(img, off0, h, stop, begin, h.off, off1, crc1, checks + part)
    ensures h0.off < h.off <= stop && h.crc == INIT
  {
    hide TagAt, Summed, IsCrc, IsCheck, Passes;
    if off1 == 0 {
      assert [] + part == part;
    } else {
      SummedStays(was, img, begin, off1, crc1, h0.off);
    }
  }

  lemma RoundsDone(img: seq<byte>, off0: nat, h: Head, stop: nat, begin: nat, from: nat,
                   off1: nat, crc1: nat, checks: seq<Cell>)
    requires Rounds(img, off0, h, stop, begin, from, off1, crc1, checks) && off0 < h.off == stop
    ensures Closing(checks) && h.crc == INIT && TagAt(img, h).Stop?
    ensures begin <= off1 && off1 + 4 <= |img| && crc1 == CrcOf(INIT, img[begin..off1]) < WORD
    ensures CrcOf(crc1, img[off1..off1 + 4]) == 0
  {
    hide TagAt, Closing, CrcOf, FromLe32;
    SummedCloses(img, begin, off1, crc1);
  }

  lemma FedNothing(img: seq<byte>, off: nat)
    requires off <= |img|
    ensures CrcOf(INIT, img[off..off]) == INIT
  {
    assert img[off..off] == [];
  }

  predicate AllChecks(cells: seq<Cell>) {
    forall k :: 0 <= k < |cells| ==> IsCheck(cells[k].e) && Passes(cells[k])
  }

  lemma FcrcTag()
    ensures var tag := Tag(TYPE_FCRC, ID_NONE, 8);
      ValidTag(tag) && !IsCrc(tag) && DSize(tag) == 12
    ensures forall data: seq<byte> :: AllChecks([Cell(Entry(Tag(TYPE_FCRC, ID_NONE, 8), data), false)])
  {
  }

  // From n on the bytes of a block are as they were.
  ghost predicate KeptBehind(was: seq<byte>, img: seq<byte>, n: nat) {
    n <= |was| == |img| && img[n..] == was[n..]
  }

  lemma PutBehind(img: seq<byte>, off: nat, data: seq<byte>, n: nat)
    requires off + |data| <= n <= |img|
    ensures |Put(img, off, data)| == |img| && KeptBehind(img, Put(img, off, data), n)
  {
    assert Put(img, off, data)[n..] == img[n..];
  }

  lemma BehindByte(was: seq<byte>, img: seq<byte>, n: nat)
    requires KeptBehind(was, img, n) && n < |img|
    ensures img[n] == was[n]
  {
    assert img[n] == img[n..][0] && was[n] == was[n..][0];
  }

  lemma BehindTwice(a: seq<byte>, b: seq<byte>, c: seq<byte>, m: nat, n: nat)
    requires KeptBehind(a, b, m) && KeptBehind(b, c, n) && m <= n
    ensures KeptBehind(a, c, n)
  {
    assert a[n..] == a[m..][n - m..] && b[n..] == b[m..][n - m..];
  }

  // The erase checksum: the length of a program unit, and the CRC of the one
  // behind the commit
  function FcrcCell(img: seq<byte>, at: nat, prog: nat): Cell
    requires at + prog <= |img| && prog < WORD
  {
    CrcSmall(INIT, img[at..at + prog]);
    Cell(Entry(Tag(TYPE_FCRC, ID_NONE, 8), Le32(prog) + Le32(CrcOf(INIT, img[at..at + prog]))), false)
  }

  // It is in front of the last checksum, if a program unit follows, and nowhere
  // else.
  ghost predicate NamesErased(img: seq<byte>, at: nat, prog: nat, checks: seq<Cell>) {
    && prog < WORD
    && (at + prog <= |img| ==> |checks| >= 2 && checks[|checks| - 2] == FcrcCell(img, at, prog))
    && forall k :: 0 <= k < |checks| && checks[k].e.tag.typ == TYPE_FCRC ==> at + prog <= |img| && k == |checks| - 2
  }

  // The checksums up to `at`: only the last ones hold an erase checksum.
  ghost predicate Names(img: seq<byte>, at: nat, stop: nat, prog: nat, checks: seq<Cell>) {
    if at == stop then NamesErased(img, stop, prog, checks)
    else forall k :: 0 <= k < |checks| ==> checks[k].e.tag.typ != TYPE_FCRC
  }

  lemma NamesMore(was: seq<byte>, img: seq<byte>, at0: nat, at: nat, stop: nat, prog: nat,
                  checks: seq<Cell>, part: seq<Cell>)
    requires at0 < stop && Names(was, at0, stop, prog, checks) && Names(img, at, stop, prog, part)
    ensures Names(img, at, stop, prog, checks + part)
  {
    hide FcrcCell;
  }

  lemma RoundNames(was: seq<byte>, img: seq<byte>, off: nat, at: nat, stop: nat, prog: nat, turn: bool,
                   checks: seq<Cell>, e: Entry)
    requires at <= stop <= |img| && 0 < prog < WORD && KeptBehind(was, img, at) && off + 4 <= at
    requires checks == if at >= stop && at + prog <= |img| then [FcrcCell(was, at, prog)] else []
    requires e.tag == CheckTag(off, at, turn)
    ensures Names(img, at, stop, prog, checks + [Cell(e, true)])
  {
    if at >= stop && at + prog <= |img| {
      ErasedStays(was, img, at, prog);
    }
  }

  lemma BehindLess(a: seq<byte>, b: seq<byte>, m: nat, n: nat)
    requires KeptBehind(a, b, m) && m <= n <= |a|
    ensures KeptBehind(a, b, n)
  {
    assert a[n..] == a[m..][n - m..] && b[n..] == b[m..][n - m..];
  }

  lemma ErasedStays(was: seq<byte>, img: seq<byte>, at: nat, prog: nat)
    requires KeptBehind(was, img, at) && at + prog <= |img| && prog < WORD
    ensures FcrcCell(img, at, prog) == FcrcCell(was, at, prog)
  {
    assert img[at..at + prog] == img[at..][..prog] && was[at..at + prog] == was[at..][..prog];
  }

  // Checksums that validate, the last one not an erase checksum
  predicate Closing(checks: seq<Cell>) {
    checks != [] && IsCrc(checks[|checks| - 1].e.tag) && AllChecks(checks)
  }

  lemma ClosingMore(checks: seq<Cell>, off: nat, noff: nat, turn: bool, e: Entry)
    requires AllChecks(checks) && off + 8 <= noff && noff - (off + 4) <= 0x3fe && e.tag == CheckTag(off, noff, turn)
    ensures Closing(checks + [Cell(e, true)])
  {
    CheckTagIs(off, noff, turn);
    hide IsCrc, CheckTag;
    CrcIsCheck(e);
  }

  // The turned valid bit: nothing that was in the block before is taken for
  // the next tag.
  lemma StopsHere(img: seq<byte>, h: Head)
    requires h.ptag < WORD
    requires h.off + 4 <= |img| ==> (h.ptag >= LOW31 <==> img[h.off] < 0x80)
    ensures TagAt(img, h).Stop?
  {
    if h.off + 4 <= |img| {
      var w := Be32(img, h.off);
      assert w < WORD && (w >= LOW31 <==> img[h.off] >= 0x80);
      hide Be32, Xor, Pow2, CrcOf, FromLe32;
      Pow2Values();
      if w >= LOW31 {
        XorTop(h.ptag, w, 31);
        XorComm(w, h.ptag);
      } else {
        XorTop(w, h.ptag, 31);
      }
    }
  }

  // What a programmed checksum tag reads as
  lemma CheckRead(img: seq<byte>, h: Head, noff: nat, turn: bool) returns (e: Entry)
    requires h.off + 8 <= noff <= |img| && noff - (h.off + 4) <= 0x3fe && h.ptag < WORD && h.crc < WORD
    ensures ValidTag(CheckTag(h.off, noff, turn)) && IsCrc(CheckTag(h.off, noff, turn))
    ensures e.tag == CheckTag(h.off, noff, turn) && Whole(Cell(e, true)) && Passes(Cell(e, true))
    ensures TagAt(Put(img, h.off, CheckBytes(e.tag, h)), h) ==
            Go(Cell(e, true), Head(noff, Turned(Pack(e.tag), e.tag), INIT))
  {
    CheckTagIs(h.off, noff, turn);
    hide CheckBytes, CheckTag, TagAt, Pack, Turned, Put;
    var tag := CheckTag(h.off, noff, turn);
    WrittenCheck(img, h, tag);
    e := Entry(tag, Put(img, h.off, CheckBytes(tag, h))[h.off + 4..noff]);
  }

  // The block after a checksum tag: its checksum is that of everything from
  // `from` on, and nothing else has changed.
  ghost predicate Checked(was: seq<byte>, img: seq<byte>, off: nat, noff: nat, from: nat, sum: nat) {
    && from <= off && off + 8 <= noff <= |img|
    && Kept(was, img, off) && KeptBehind(was, img, noff)
    && sum == CrcOf(INIT, img[from..off + 4]) < WORD && FromLe32(img[off + 4..off + 8]) == sum
  }

  lemma SumIs(was: seq<byte>, img: seq<byte>, off: nat, noff: nat, from: nat, sum: nat, four: seq<byte>)
    requires from <= off && off + 8 <= noff <= |img| && |four| == 4
    requires Kept(was, img, off) && KeptBehind(was, img, noff)
    requires img[off + 4..off + 8] == four && FromLe32(four) == sum == CrcOf(INIT, img[from..off + 4]) < WORD
    ensures Checked(was, img, off, noff, from, sum)
  {
    hide CrcOf, FromLe32, Kept, KeptBehind;
  }

  lemma Summing(img: seq<byte>, off: nat, word: seq<byte>, four: seq<byte>, from: nat, noff: nat, sum: nat)
    requires |word| == |four| == 4 && from <= off && off + 8 <= noff <= |img|
    requires FromLe32(four) == sum == CrcOf(CrcOf(INIT, img[from..off]), word) < WORD
    ensures Checked(img, Put(img, off, word + four), off, noff, from, sum)
  {
    PutParts(img, off, word, four);
    PutBehind(img, off, word + four, noff);
    var out := Put(img, off, word + four);
    hide Put, CrcOf, FromLe32, Checked;
    FedMore(img, out, from, off, off + 4);
    SumIs(img, out, off, noff, from, sum, four);
  }

  lemma CheckBytesAre(tag: Tag, h: Head)
    requires ValidTag(tag) && h.ptag < WORD && h.crc < WORD
    ensures var word := ToBe32(WordFor(tag, h.ptag));
      CrcOf(h.crc, word) < WORD && CheckBytes(tag, h) == word + Le32(CrcOf(h.crc, word))
  {
    hide CrcOf, WordFor, ToBe32, Le32;
    CrcSmall(h.crc, ToBe32(WordFor(tag, h.ptag)));
  }

  // LFS_TYPE_CCRC with the turned valid bit, no id, and the room to noff
  function CheckTag(off: nat, noff: nat, turn: bool): Tag
    requires off + 4 <= noff
  {
    Tag(TYPE_CCRC + if turn then 1 else 0, ID_NONE, noff - (off + 4))
  }

  lemma CheckTagIs(off: nat, noff: nat, turn: bool)
    requires off + 8 <= noff && noff - (off + 4) <= 0x3fe
    ensures var tag := CheckTag(off, noff, turn);
      && ValidTag(tag) && IsCrc(tag) && 4 <= tag.size && !IsDelete(tag) && off + DSize(tag) == noff
      && Pack(tag) < LOW31
      && Turned(Pack(tag), tag) == if turn then Pack(tag) + LOW31 else Pack(tag)
  {
    UnpackPack(CheckTag(off, noff, turn));
  }

  // Feeding what was programmed keeps the checksum in step.
  lemma FedMore(was: seq<byte>, img: seq<byte>, from: nat, mid: nat, off: nat)
    requires from <= mid <= off <= |img| == |was| && img[..mid] == was[..mid]
    ensures CrcOf(INIT, img[from..off]) == CrcOf(CrcOf(INIT, was[from..mid]), img[mid..off])
  {
    SameBytes(was, img, mid, from, mid);
    assert img[from..off] == img[from..mid] + img[mid..off];
    CrcConcat(INIT, img[from..mid], img[mid..off]);
  }

  // ---- What a fetch makes of it -------------------------------------------------------------

  lemma {:induction false} ClosingEnds(checks: seq<Cell>)
    requires AllChecks(checks) && checks != [] && IsCrc(checks[|checks| - 1].e.tag)
    ensures CommitEnd(checks) == |checks|
  {
    if |checks| > 1 {
      ClosingEnds(checks[1..]);
    }
  }

  // A closed commit behind closed commits is all committed.
  lemma CommitCounts(cells: seq<Cell>, tags: seq<Entry>, checks: seq<Cell>)
    requires CommitEnd(cells) == |cells| && AllSized(tags) && Closing(checks)
    ensures var all := cells + (Cells(tags, false) + checks);
      CommitEnd(all) == |all| && Log(all) == Log(cells) + (tags + Log(checks))
  {
    ClosingEnds(checks);
    CellsAt(tags, false);
    hide IsCrc, CommitEnd, Closing, Log, Cells;
    CommitEndTags(Cells(tags, false), checks);
    CommitEndConcat(cells, Cells(tags, false) + checks);
    LogConcat(cells, Cells(tags, false) + checks);
    LogConcat(Cells(tags, false), checks);
    LogCells(tags, false);
  }

  lemma ClosingMeans(m: Meaning, tags: seq<Entry>, checks: seq<Cell>)
    requires AllChecks(checks)
    ensures ApplyAll(m, tags + Log(checks)) == ApplyAll(m, tags)
  {
    LogLength(checks);
    ApplyAllConcat(m, tags, Log(checks));
    ChecksMeanNothing(ApplyAll(m, tags), Log(checks));
  }

  // Where the last commit of a block ends
  ghost function EndOf(block: seq<byte>): Head
    requires |block| >= 4
  {
    Nth(block, Start(block), CommitEnd(ImageCells(block)))
  }

  // The block in which a commit has been completed means the old log with the
  // commit's tags applied, and a fetch finds its end where the commit ended.
  lemma CompleteMeans(img: seq<byte>, h: Head, cells: seq<Cell>, tags: seq<Entry>, checks: seq<Cell>)
    requires CommitEnd(cells) == |cells| && AllSized(tags) && Closing(checks)
    requires ReadSoFar(img, cells + (Cells(tags, false) + checks), h) && TagAt(img, h).Stop?
    ensures var all := ImageCells(img);
      && all == cells + (Cells(tags, false) + checks) && AllWhole(all)
      && CommitEnd(all) == |all| > 0 && h == EndOf(img)
      && LogMeaning(Committed(all)) == ApplyAll(LogMeaning(Log(cells)), tags)
  {
    var all := cells + (Cells(tags, false) + checks);
    CommitCounts(cells, tags, checks);
    ReadsParse(img, Start(img), all);
    assert Parse(img, h) == [];
    hide CommitEnd, Reads, Nth, Parse, TagAt, Cells, Log, LogMeaning, ApplyAll, Start, IsCheck, AllWhole;
    assert all + [] == all;
    assert all[..|all|] == all;
    MeaningAppend(Log(cells), tags + Log(checks));
    ClosingMeans(LogMeaning(Log(cells)), tags, checks);
  }

  // Until then, whatever has been programmed behind the old end, byte by
  // byte, the old log stands in front of what is read there.
  lemma BehindTheEnd(was: seq<byte>, img: seq<byte>, cells: seq<Cell>, h: Head)
    requires ReadSoFar(was, cells, h) && CommitEnd(cells) == |cells| && 4 <= h.off && Kept(was, img, h.off)
    ensures ImageCells(img) == cells + Parse(img, h)
    ensures Committed(ImageCells(img)) == Log(cells) + Committed(Parse(img, h))
  {
    hide TagAt, Reads, Nth, Parse, AllWhole, CommitEnd, Log;
    SameStart(was, img, 4, h.off);
    StartSame(was, img);
    ReadsFrame(was, img, Start(was), cells);
    ReadsParse(img, Start(img), cells);
    var rest := Parse(img, h);
    var n := CommitEnd(rest);
    CommitEndConcat(cells, rest);
    assert (cells + rest)[..|cells| + n] == cells + rest[..n];
    LogConcat(cells, rest[..n]);
  }

  // What this code leaves in a block: checksums with their four bytes, tails
  // that are pairs, and room for the next commit.
  ghost predicate OwnBlock(block: seq<byte>) {
    && 4 <= |block| < WORD
    && var cells := ImageCells(block);
       TailsWhole(cells) && AllWhole(cells[..CommitEnd(cells)])
  }

  // What a block's commits have put into it
  ghost function OwnCells(block: seq<byte>): seq<Cell>
    requires |block| >= 4
  {
    ImageCells(block)[..CommitEnd(ImageCells(block))]
  }

  // A commit has been written behind these cells.
  ghost predicate Written(img: seq<byte>, cells: seq<Cell>, tags: seq<Entry>, checks: seq<Cell>) {
    && |img| >= 4 && CommitEnd(cells) == |cells| && AllSized(tags) && Closing(checks)
    && ReadSoFar(img, cells + (Cells(tags, false) + checks), EndOf(img))
  }

  lemma CommitEndOfCommitted(cells: seq<Cell>)
    ensures CommitEnd(cells[..CommitEnd(cells)]) == CommitEnd(cells)
  {
    if cells != [] && CommitEnd(cells) > 0 {
      var n := CommitEnd(cells);
      CommitEndOfCommitted(cells[1..]);
      assert cells[..n][1..] == cells[1..][..n - 1];
    }
  }

  lemma {:induction false} LastIsCheck(cells: seq<Cell>)
    requires CommitEnd(cells) > 0
    ensures IsCrc(cells[CommitEnd(cells) - 1].e.tag)
  {
    if CommitEnd(cells[1..]) > 0 {
      LastIsCheck(cells[1..]);
    }
  }

  lemma AllCommittedPass(cells: seq<Cell>)
    ensures forall j :: 0 <= j < CommitEnd(cells) ==> Passes(cells[j])
  {
    forall j | 0 <= j < CommitEnd(cells) ensures Passes(cells[j]) {
      CommittedPass(cells, j);
    }
  }

  lemma CheckResets(img: seq<byte>, h: Head)
    requires TagAt(img, h).Go? && IsCrc(TagAt(img, h).cell.e.tag)
    ensures TagAt(img, h).next.crc == INIT
  {
  }

  lemma OwnEnd(block: seq<byte>, cells: seq<Cell>)
    requires |block| >= 4 && Reads(block, Start(block), cells) && cells != [] && IsCrc(cells[|cells| - 1].e.tag)
    ensures var h := Nth(block, Start(block), |cells|);
      4 <= h.off <= |block| && h.ptag < WORD && h.crc == INIT
  {
    ReadsHold(block, cells);
    OffMonotone(Log(cells), 0, |Log(cells)|);
    var p, _ := ReadsLast(block, Start(block), cells);
    hide TagAt, IsCrc, Reads, Nth, Log;
    CheckResets(block, p);
  }

  // Where the last commit of a block ends another one can begin.
  lemma OwnReads(block: seq<byte>) returns (cells: seq<Cell>)
    requires OwnBlock(block) && CommitEnd(ImageCells(block)) > 0
    ensures cells == ImageCells(block)[..CommitEnd(ImageCells(block))]
    ensures ReadSoFar(block, cells, EndOf(block)) && CommitEnd(cells) == |cells|
    ensures Log(cells) == Committed(ImageCells(block))
    ensures 4 <= EndOf(block).off <= |block| && EndOf(block).ptag < WORD && EndOf(block).crc == INIT
  {
    var all := ImageCells(block);
    hide TagAt, CommitEnd, IsCrc, Reads, Nth, Parse, Passes, Log, AllWhole;
    cells := all[..CommitEnd(all)];
    CommitEndOfCommitted(all);
    LastIsCheck(all);
    AllCommittedPass(all);
    ParseReads(block, Start(block), all, CommitEnd(all));
    OwnEnd(block, cells);
  }

  lemma OwnAfter(img: seq<byte>, cells: seq<Cell>, tags: seq<Entry>, checks: seq<Cell>)
    requires 4 <= |img| < WORD && AllWhole(ImageCells(img)) && ImageCells(img) == cells + (Cells(tags, false) + checks)
    requires CommitEnd(cells) == |cells| && TailsWhole(cells) && AllSized(tags) && AllChecks(checks)
    ensures OwnBlock(img)
  {
    var all := ImageCells(img);
    CellsAt(tags, false);
    forall i | 0 <= i < CommitEnd(all) && Type1(all[i].e.tag.typ) == TYPE_TAIL ensures all[i].e.tag.size == 8 {
      if |cells| <= i < |cells| + |tags| {
        assert all[i] == Cells(tags, false)[i - |cells|];
        assert Sized(tags[i - |cells|]);
      }
    }
  }

  // lfs_dir_fetch and, behind its last commit, lfs_dir_relocatingcommit
  method AppendToBlock(block: seq<byte>, tags: seq<Entry>, prog: nat, limit: nat)
    returns (img: seq<byte>, ok: bool, ghost checks: seq<Cell>)
    requires OwnBlock(block) && CommitEnd(ImageCells(block)) > 0 && EndOf(block).off + 8 <= |block|
    requires limit + 8 <= |block| && 0 < prog < WORD && Cache.Aligned(|block|, prog) && AllSized(tags)
    ensures Kept(block, img, EndOf(block).off)
    ensures limit + 8 == |block| ==> (ok <==> EndOf(block).off + TotalSize(tags) <= limit || tags == [])
    ensures ok ==> OwnBlock(img) && CommitEnd(ImageCells(img)) == |ImageCells(img)| > 0
    ensures ok ==> LogMeaning(Committed(ImageCells(img))) == ApplyAll(LogMeaning(Committed(ImageCells(block))), tags)
    ensures ok ==> Written(img, OwnCells(block), tags, checks) && NamesErased(img, EndOf(img).off, prog, checks)
  {
    var off, etag, _, _, _ := FetchImage(block);
    ghost var cells := OwnReads(block);
    assert TailsWhole(cells) && |block| < WORD;
    hide OwnBlock, CommitEnd, Reads, Nth, Parse, Start, LogMeaning, Log, Committed, ReadSoFar, Kept, AllSized, TagAt;
    hide ApplyAll, TotalSize, IsCheck, Passes, AllWhole, TailsWhole, Cells, ImageCells, CrcOf, KeptBehind, NamesErased;
    var w := new BlockCommit.Append(block, off, etag, limit, cells);
    ok, checks := w.Commit(tags, prog);
    img := w.img;
    if ok {
      CompleteMeans(img, w.Here(), cells, tags, checks);
      OwnAfter(img, cells, tags, checks);
    }
  }

  // Power lost at any byte of that: as long as the bytes in front of the old
  // end are there, a fetch finds the old log if and only if what is behind it
  // holds no validating commit.
  lemma TornBytes(block: seq<byte>, img: seq<byte>)
    requires OwnBlock(block) && CommitEnd(ImageCells(block)) > 0 && Kept(block, img, EndOf(block).off)
    ensures Committed(ImageCells(img)) == Committed(ImageCells(block)) <==> CommitEnd(Parse(img, EndOf(block))) == 0
  {
    var cells := OwnReads(block);
    BehindTheEnd(block, img, cells, EndOf(block));
    var rest := Parse(img, EndOf(block));
    LogLength(rest[..CommitEnd(rest)]);
  }

  // The tags of a commit to a pair with this meaning
  method TagsFor(m: Meaning, c: Commit) returns (tags: seq<Entry>)
    requires ValidCommit(c) && c.fcrc == [] && G.Valid(m.share)
    ensures tags == AppendTags(m, c)
  {
    tags := Pairs.TraverseAttrs(c.attrs);
    if c.delta != G.ZERO {
      tags := tags + [ShareEntry(G.Xor(m.share, c.delta))];
    }
  }

  // The same for a commit with its attributes: appended to the bytes of the
  // block it gives what was intended.
  method AppendToBytes(block: seq<byte>, c: Commit, prog: nat, limit: nat) returns (img: seq<byte>, ok: bool)
    requires OwnBlock(block) && CommitEnd(ImageCells(block)) > 0 && EndOf(block).off + 8 <= |block|
    requires limit + 8 <= |block| && 0 < prog < WORD && Cache.Aligned(|block|, prog)
    requires ValidCommit(c) && c.fcrc == []
    requires AllSized(AppendTags(LogMeaning(Committed(ImageCells(block))), c))
    ensures Kept(block, img, EndOf(block).off)
    ensures ok ==> OwnBlock(img) && CommitEnd(ImageCells(img)) == |ImageCells(img)| > 0
    ensures ok ==>
              LogMeaning(Committed(ImageCells(img))) == Intended(LogMeaning(Committed(ImageCells(block))), c)
  {
    var m := LogMeaning(Committed(ImageCells(block)));
    var tags := TagsFor(m, c);
    ghost var checks;
    img, ok, checks := AppendToBlock(block, tags, prog, limit);
    ghost var log := Committed(ImageCells(block));
    hide OwnBlock, CommitEnd, LogMeaning, Committed, Kept, AllSized, ApplyAll, ImageCells, AppendTags, Intended, EndOf;
    AppendMeans(log, c);
    MeaningAppend(log, tags);
  }

  // lfs_dir_compact on the bytes of an erased block
  method RewriteBlock(block: seq<byte>, rev: nat, tags: seq<Entry>, prog: nat, limit: nat)
    returns (img: seq<byte>, ok: bool, ghost checks: seq<Cell>)
    requires 12 <= |block| < WORD && rev < WORD && AllSized(tags)
    requires limit + 8 <= |block| && 0 < prog < WORD && Cache.Aligned(|block|, prog)
    ensures |img| == |block| && FromLe32(img[..4]) == rev
    ensures limit + 8 == |block| ==> (ok <==> 4 + TotalSize(tags) <= limit || tags == [])
    ensures ok ==> OwnBlock(img) && CommitEnd(ImageCells(img)) == |ImageCells(img)| > 0
    ensures ok ==> LogMeaning(Committed(ImageCells(img))) == LogMeaning(tags)
    ensures ok ==> Written(img, [], tags, checks) && NamesErased(img, EndOf(img).off, prog, checks)
  {
    var w := new BlockCommit.Fresh(block, rev, limit);
    ghost var start := w.img;
    ok, checks := w.Commit(tags, prog);
    img := w.img;
    FromToLe32(rev);
    SameStart(start, img, 4, 4);
    if ok {
      CompleteMeans(img, w.Here(), [], tags, checks);
      OwnAfter(img, [], tags, checks);
      MeaningAppend([], tags);
      assert [] + tags == tags;
    }
  }
}
