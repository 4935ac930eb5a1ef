// How a log is laid out in a block: a 4-byte revision, then for each entry a
// big-endian word, exclusive-ored with the tag before it, and the payload.
// The chain can be walked from either end.
//
// The top bit of a word only says whether the word has been programmed; both
// walks clear it, so it is cleared here as the word is read.

module LfsChain {
  import opened Bytes
  import opened LfsLog
  import Bits

  const LOW31 := 0x8000_0000
  const FIRST_PTAG := 0x7fff_ffff

  predicate ValidTag(t: Tag) {
    t.typ < 0x800 && t.id < 0x400 && t.size < 0x400
  }

  // LFS_MKTAG
  function Pack(t: Tag): nat {
    t.typ * 0x10_0000 + t.id * 0x400 + t.size
  }

  function Unpack(w: nat): Tag {
    Tag(w / 0x10_0000, w / 0x400 % 0x400, w % 0x400)
  }

  lemma UnpackPack(t: Tag)
    requires ValidTag(t)
    ensures Unpack(Pack(t)) == t && Pack(t) < LOW31
  {
    var w := Pack(t);
    assert w == 0x400 * (t.typ * 0x400 + t.id) + t.size;
    assert w / 0x400 == t.typ * 0x400 + t.id;
    assert w == 0x10_0000 * t.typ + (t.id * 0x400 + t.size);
  }

  // lfs_tag_dsize: a deleted attribute has no payload.
  function DSize(t: Tag): nat {
    4 + if IsDelete(t) then 0 else t.size
  }

  function TotalSize(log: seq<Entry>): nat {
    if log == [] then 0 else TotalSize(log[..|log| - 1]) + DSize(log[|log| - 1].tag)
  }

  // A front of the log is no larger.
  lemma {:induction false} SizeAtLeast(log: seq<Entry>, n: nat)
    requires n <= |log|
    ensures TotalSize(log[..n]) <= TotalSize(log)
  {
    if n == |log| {
      assert log[..n] == log;
    } else {
      SizeAtLeast(log[..|log| - 1], n);
      assert log[..|log| - 1][..n] == log[..n];
    }
  }

  lemma {:induction false} SizeConcat(a: seq<Entry>, b: seq<Entry>)
    ensures TotalSize(a + b) == TotalSize(a) + TotalSize(b)
  {
    if b == [] {
      assert a + b == a;
    } else {
      assert (a + b)[..|a + b| - 1] == a + b[..|b| - 1];
      SizeConcat(a, b[..|b| - 1]);
    }
  }

  // The tag that entry k is chained to
  function Ptag(log: seq<Entry>, k: nat): nat
    requires k <= |log|
  {
    if k == 0 then FIRST_PTAG else Pack(log[k - 1].tag)
  }

  // Byte offset of entry k
  function Off(log: seq<Entry>, k: nat): nat
    requires k <= |log|
  {
    if k == 0 then 4 else Off(log, k - 1) + DSize(log[k - 1].tag)
  }

  function Be32(img: seq<byte>, off: nat): nat
    requires off + 4 <= |img|
  {
    img[off] as nat * 0x100_0000 + img[off + 1] as nat * 0x1_0000 + img[off + 2] as nat * 0x100 + img[off + 3] as nat
  }

  // The word at an offset without its valid bit
  function Word(img: seq<byte>, off: nat): nat
    requires off + 4 <= |img|
  {
    Be32(img, off) % LOW31
  }

  // The block image holds the log: every word chains to its predecessor.
  ghost predicate Holds(img: seq<byte>, log: seq<Entry>) {
    && Off(log, |log|) <= |img|
    && forall k :: 0 <= k < |log| ==> HoldsAt(img, log, k)
  }

  ghost predicate HoldsAt(img: seq<byte>, log: seq<Entry>, k: nat)
    requires k < |log|
  {
    && Off(log, k) + DSize(log[k].tag) <= |img|
    && ValidTag(log[k].tag)
    && Word(img, Off(log, k)) == Bits.Xor(Pack(log[k].tag), Ptag(log, k))
    && log[k].data == img[Off(log, k) + 4..Off(log, k) + DSize(log[k].tag)]
  }

  lemma {:induction false} OffMonotone(log: seq<Entry>, j: nat, k: nat)
    requires j <= k <= |log|
    ensures Off(log, j) + 4 * (k - j) <= Off(log, k)
  {
    if j < k {
      OffMonotone(log, j, k - 1);
    }
  }

  // A word read with the tag before it gives its own tag, and read with its
  // own tag gives the tag before it.
  lemma Unchain(img: seq<byte>, log: seq<Entry>, k: nat)
    requires k < |log| && HoldsAt(img, log, k)
    ensures Bits.Xor(Word(img, Off(log, k)), Ptag(log, k)) == Ptag(log, k + 1)
    ensures Bits.Xor(Word(img, Off(log, k)), Ptag(log, k + 1)) == Ptag(log, k)
  {
    Bits.XorCancel(Pack(log[k].tag), Ptag(log, k));
  }

  // The word in front of entry k unpacks to the tag before it, or, at the
  // start of the block, to an entry that ends where the log begins.
  lemma LastTag(log: seq<Entry>, k: nat)
    requires k <= |log|
    requires k > 0 ==> ValidTag(log[k - 1].tag)
    ensures if k == 0 then DSize(Unpack(Ptag(log, k))) == 4 else Unpack(Ptag(log, k)) == log[k - 1].tag
  {
    if k > 0 {
      UnpackPack(log[k - 1].tag);
    }
  }

  // What lfs_dir_commitattr writes keeps the chain, whatever the valid bit
  // of the word it chains to.
  lemma CommittedWord(tag: Tag, ptag: nat)
    requires ValidTag(tag)
    ensures Bits.Xor(Pack(tag), ptag) % LOW31 == Bits.Xor(Pack(tag), ptag % LOW31)
  {
    UnpackPack(tag);
    Bits.Pow2Values();
    Bits.XorLowRight(Pack(tag), ptag, 31);
  }

  // ---- Walking a block image from its start -----------------------------

  // The disk half of lfs_dir_traverse: the tags of the block, oldest first.
  method ScanForward(img: seq<byte>, end: nat, ghost log: seq<Entry>) returns (tags: seq<Tag>)
    requires Holds(img, log) && end == Off(log, |log|)
    ensures |tags| == |log|
    ensures forall k :: 0 <= k < |log| ==> tags[k] == log[k].tag
  {
    hide Bits.Xor, Unpack, Pack, Be32;
    tags := [];
    var off: nat, ptag: nat := 0, FIRST_PTAG;
    LastTag(log, 0);
    while off + DSize(Unpack(ptag)) < end
      invariant |tags| <= |log|
      invariant off + DSize(Unpack(ptag)) == Off(log, |tags|)
      invariant ptag == Ptag(log, |tags|)
      invariant forall k :: 0 <= k < |tags| ==> tags[k] == log[k].tag
      decreases |log| - |tags|
    {
      ghost var k := |tags|;
      off := off + DSize(Unpack(ptag));
      assert HoldsAt(img, log, k);
      Unchain(img, log, k);
      ptag := Bits.Xor(Word(img, off), ptag);
      LastTag(log, k + 1);
      tags := tags + [Unpack(ptag)];
    }
    OffMonotone(log, |tags|, |log|);
  }
}
