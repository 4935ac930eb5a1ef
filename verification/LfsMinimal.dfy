// Compaction makes room: what it emits holds one entry for each thing a file
// still has, however often the log set it.

module LfsMinimal {
  import opened LfsLog
  import opened LfsTraverse
  import opened LfsCompact
  import opened LfsMeaning

  // Nothing outside the groups is followed by a tag for the same key, and a
  // deleted attribute is followed by nothing.
  ghost predicate Once(xs: seq<Item>) {
    forall i, j {:trigger xs[i], xs[j]} :: 0 <= i < j < |xs| && !xs[i].grouped && !xs[j].silent ==>
      KeyOf(xs[i].e.tag) != KeyOf(xs[j].e.tag) && !IsDelete(xs[i].e.tag)
  }

  lemma {:induction false} SqueezeFrom(xs: seq<Item>, x: Item, i: nat) returns (k: nat)
    requires i < |Squeeze(xs, x)|
    ensures k < |xs| && Squeeze(xs, x)[i] in ToSeq(FilterStep(xs[k], x))
  {
    if i < |Squeeze(xs[..|xs| - 1], x)| {
      k := SqueezeFrom(xs[..|xs| - 1], x, i);
    } else {
      k := |xs| - 1;
    }
  }

  // What x lets through stays apart: it came from different keys.
  lemma {:induction false} SqueezeOnce(xs: seq<Item>, x: Item)
    requires AllFileTags(xs) && AllValid(xs) && ValidItem(x) && Once(xs)
    ensures Once(Squeeze(xs, x))
  {
    if xs != [] {
      var front, f := xs[..|xs| - 1], xs[|xs| - 1];
      SqueezeOnce(front, x);
      var before, r := Squeeze(front, x), FilterStep(f, x);
      FilterStepKey(f, x);
      forall i | r.Some? && 0 <= i < |before| && !before[i].grouped && !r.value.silent
        ensures KeyOf(before[i].e.tag) != KeyOf(r.value.e.tag) && !IsDelete(before[i].e.tag)
      {
        var k := SqueezeFrom(front, x, i);
        FilterStepKey(front[k], x);
        assert xs[k] == front[k] && xs[|front|] == f;
      }
    }
  }

  lemma {:induction false} AppendOnce(xs: seq<Item>, x: Item)
    requires AllFileTags(xs) && ValidItem(x) && IsFileTag(x.e.tag) && Once(Squeeze(xs, x))
    ensures Once(Squeeze(xs, x) + [x])
  {
    var before := Squeeze(xs, x);
    forall i | 0 <= i < |before| && !before[i].grouped && !x.silent
      ensures KeyOf(before[i].e.tag) != KeyOf(x.e.tag) && !IsDelete(before[i].e.tag)
    {
      var k := SqueezeFrom(xs, x, i);
    }
  }

  // However often a list sets a key, what is collected of it sets it once.
  lemma {:induction false} CollectOnce(xs: seq<Item>)
    requires AllValid(xs)
    ensures Once(Collect(xs))
  {
    if xs != [] {
      var front, x := xs[..|xs| - 1], xs[|xs| - 1];
      assert xs == front + [x];
      CollectOnce(front);
      CollectValid(front);
      CollectSnoc(front, x);
      SqueezeOnce(Collect(front), x);
      if IsFileTag(x.e.tag) {
        AppendOnce(Collect(front), x);
      } else {
        assert Squeeze(Collect(front), x) + [] == Squeeze(Collect(front), x);
      }
    }
  }

  // ---- What is emitted -----------------------------------------------------------

  // One entry for each key, and a deleted attribute at most at the end
  predicate OnePerKey(es: seq<Entry>) {
    forall i, j {:trigger es[i], es[j]} :: 0 <= i < j < |es| ==>
      KeyOf(es[i].tag) != KeyOf(es[j].tag) && !IsDelete(es[i].tag)
  }

  // Attributes that are single tags
  predicate Single(attrs: seq<Attr>) {
    forall i :: 0 <= i < |attrs| ==> attrs[i].Plain? || attrs[i].Noop?
  }

  lemma {:induction false} SingleNoGroups(attrs: seq<Attr>)
    requires Single(attrs)
    ensures NoGroups(Flatten(attrs))
  {
    if attrs != [] {
      SingleNoGroups(attrs[1..]);
    }
  }

  lemma {:induction false} WindowFrom(xs: seq<Item>, begin: nat, end: nat, i: nat) returns (k: nat)
    requires i < |Window(xs, begin, end)|
    ensures k < |xs| && begin <= xs[k].e.tag.id < end
    ensures Window(xs, begin, end)[i] == xs[k].e.(tag := xs[k].e.tag.(id := xs[k].e.tag.id - begin))
  {
    if i < |Window(xs[..|xs| - 1], begin, end)| {
      k := WindowFrom(xs[..|xs| - 1], begin, end, i);
    } else {
      k := |xs| - 1;
    }
  }

  lemma {:induction false} WindowOnce(xs: seq<Item>, begin: nat, end: nat)
    requires NoGroups(xs) && AllValid(xs) && Once(xs)
    ensures OnePerKey(Window(xs, begin, end))
  {
    if xs != [] {
      var front, x := xs[..|xs| - 1], xs[|xs| - 1];
      WindowOnce(front, begin, end);
      var before := Window(front, begin, end);
      forall i | 0 <= i < |before| && begin <= x.e.tag.id < end
        ensures KeyOf(before[i].tag) != Key(x.e.tag.id - begin, ClassOf(x.e.tag.typ)) && !IsDelete(before[i].tag)
      {
        var k := WindowFrom(front, begin, end, i);
        assert xs[k] == front[k] && xs[|front|] == x;
      }
    }
  }

  // A compacted log sets nothing twice.
  lemma CompactedOnce(disk: seq<Entry>, attrs: seq<Attr>, begin: nat, end: nat)
    requires ValidDisk(disk) && ValidAttrs(attrs) && Single(attrs)
    ensures OnePerKey(Compacted(disk, attrs, begin, end))
  {
    var xs := DiskItems(disk) + Flatten(attrs);
    CommitItemsValid(disk, attrs);
    DiskItemsValid(disk);
    SingleNoGroups(attrs);
    CollectValid(xs);
    CollectOnce(xs);
    WindowOnce(Collect(xs), begin, end);
  }

  // ---- How much room it takes ------------------------------------------------------

  function KeysOf(es: seq<Entry>): set<Key> {
    if es == [] then {} else KeysOf(es[..|es| - 1]) + {KeyOf(es[|es| - 1].tag)}
  }

  lemma {:induction false} KeyNew(es: seq<Entry>, k: Key)
    requires forall i :: 0 <= i < |es| ==> KeyOf(es[i].tag) != k
    ensures k !in KeysOf(es)
  {
    if es != [] {
      KeyNew(es[..|es| - 1], k);
    }
  }

  lemma {:induction false} CountedByKeys(es: seq<Entry>)
    requires OnePerKey(es)
    ensures |KeysOf(es)| == |es|
    ensures es != [] ==> KeyOf(es[|es| - 1].tag) !in KeysOf(es[..|es| - 1])
  {
    if es != [] {
      var front, e := es[..|es| - 1], es[|es| - 1];
      CountedByKeys(front);
      forall i | 0 <= i < |front| ensures KeyOf(front[i].tag) != KeyOf(e.tag) {
        assert es[i] == front[i] && es[|front|] == e;
      }
      KeyNew(front, KeyOf(e.tag));
    }
  }

  predicate Sets(e: Entry) {
    IsFileTag(e.tag) && !IsDelete(e.tag)
  }

  predicate AllSet(es: seq<Entry>) {
    forall i :: 0 <= i < |es| ==> Sets(es[i])
  }

  lemma {:induction false} SetKeys(es: seq<Entry>)
    requires AllSet(es)
    ensures Replay(es).files.Keys == KeysOf(es)
  {
    if es != [] {
      var front, e := es[..|es| - 1], es[|es| - 1];
      assert Sets(e);
      SetKeys(front);
      assert Replay(es).files == Replay(front).files[KeyOf(e.tag) := ValueOf(e)];
    }
  }

  // Only the last entry may be a deletion.
  lemma FrontSets(es: seq<Entry>)
    requires OnePerKey(es) && OnlyFileTags(es) && es != []
    ensures AllSet(es[..|es| - 1]) && (!IsDelete(es[|es| - 1].tag) ==> AllSet(es))
  {
    var last := es[|es| - 1];
    forall i | 0 <= i < |es| - 1 ensures Sets(es[i]) {
      assert es[|es| - 1] == last;
    }
  }

  // The files of such a log: one thing for each entry, without a last deletion
  lemma OneEach(es: seq<Entry>)
    requires OnePerKey(es) && OnlyFileTags(es)
    ensures |Replay(es).files.Keys| == if es != [] && IsDelete(es[|es| - 1].tag) then |es| - 1 else |es|
  {
    if es != [] {
      var front, e := es[..|es| - 1], es[|es| - 1];
      FrontSets(es);
      CountedByKeys(es);
      CountedByKeys(front);
      hide OnePerKey, AllSet;
      SetKeys(front);
      if IsDelete(e.tag) {
        assert Replay(es).files == Replay(front).files - {KeyOf(e.tag)};
        assert Replay(es).files.Keys == KeysOf(front);
      } else {
        SetKeys(es);
      }
    }
  }

  lemma SingleReviveNothing(attrs: seq<Attr>, begin: nat, end: nat)
    requires Single(attrs)
    ensures RevivesNothing(attrs, begin, end)
  {
    SingleNoGroups(attrs);
    forall k: Key | begin <= k.id < end ensures !Revives(Flatten(attrs), k) {
      NothingGrouped(Flatten(attrs), k);
    }
  }

  // A compacted log has as many entries as there are things the files still
  // have, and one more only for an attribute that the commit deletes last.
  lemma CompactedSize(disk: seq<Entry>, attrs: seq<Attr>, begin: nat, end: nat)
    requires ValidDisk(disk) && ValidAttrs(attrs) && Single(attrs)
    ensures var out := Compacted(disk, attrs, begin, end);
      |out| == |Slice(CommittedFiles(disk, attrs), begin, end).Keys|
               + if out != [] && IsDelete(out[|out| - 1].tag) then 1 else 0
  {
    hide Compacted, CommittedFiles, Slice, Replay, Single, OnlyFileTags, OnePerKey, ValidDisk, ValidAttrs;
    SingleReviveNothing(attrs, begin, end);
    CompactionPreserves(disk, attrs, begin, end);
    CompactedOnce(disk, attrs, begin, end);
    OneEach(Compacted(disk, attrs, begin, end));
  }
}
