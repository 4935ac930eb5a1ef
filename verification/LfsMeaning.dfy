// What a compacted log means, and what a chain of split logs means.

module LfsMeaning {
  import opened Bytes
  import opened Options
  import opened Sequences
  import opened LfsLog
  import opened LfsTraverse
  import opened LfsCompact

  // What a commit of `attrs` appends to the log
  function AppendedLog(attrs: seq<Attr>): seq<Entry> {
    Entries(Flatten(attrs))
  }

  // No key with an id in [begin, end) is deleted by a list of attributes after
  // a group of the same list gave it a value, unless nothing follows that
  // could drop the deletion.
  ghost predicate RevivesNothing(attrs: seq<Attr>, begin: nat, end: nat) {
    forall k: Key :: begin <= k.id < end ==> !Revives(Flatten(attrs), k)
  }

  ghost predicate RevivesNone(attrs: seq<Attr>) {
    forall k: Key :: !Revives(Flatten(attrs), k)
  }

  // What every caller keeps to: no attribute is deleted after a move or an
  // attribute list of the same commit.
  predicate DeletesFirst(attrs: seq<Attr>) {
    forall i, j :: 0 <= i < j < |attrs| && (attrs[i].Move? || attrs[i].UserAttrs?) && attrs[j].Plain? ==>
      !(IsFileTag(attrs[j].e.tag) && IsDelete(attrs[j].e.tag))
  }

  // ---- The items of a commit are well formed ---------------------------------

  lemma {:induction false} EntriesOfDisk(disk: seq<Entry>)
    ensures Entries(DiskItems(disk)) == disk
  {
    if disk != [] {
      EntriesOfDisk(disk[1..]);
      var one := [Plainly(disk[0])];
      EntriesConcat(one, DiskItems(disk[1..]));
      assert one[..0] == [];
    }
  }

  lemma {:induction false} DiskItemsValid(disk: seq<Entry>)
    requires ValidDisk(disk)
    ensures AllValid(DiskItems(disk)) && NoGroups(DiskItems(disk))
    ensures |DiskItems(disk)| == |disk|
    ensures forall i :: 0 <= i < |disk| ==> DiskItems(disk)[i] == Plainly(disk[i])
  {
    if disk != [] {
      DiskItemsValid(disk[1..]);
    }
  }

  predicate NoDeletes(xs: seq<Item>) {
    forall i :: 0 <= i < |xs| ==> !IsDelete(xs[i].e.tag)
  }

  // Any tag that is not a file's weeds out the deleted attributes before it.
  lemma {:induction false} SqueezeWeeds(xs: seq<Item>, x: Item)
    requires NoGroups(xs) && !x.silent && ValidItem(x) && AllFileTags(xs)
    ensures NoDeletes(Squeeze(xs, x))
  {
    if xs != [] {
      SqueezeWeeds(xs[..|xs| - 1], x);
      FilterStepKey(xs[|xs| - 1], x);
    }
  }

  lemma {:induction false} CommittedHasNoDeletes(src: seq<Entry>)
    requires ValidDisk(src) && src != [] && !IsFileTag(src[|src| - 1].tag)
    ensures NoDeletes(Collect(DiskItems(src)))
  {
    var xs := DiskItems(src);
    DiskItemsValid(src);
    var front, x := xs[..|xs| - 1], xs[|xs| - 1];
    assert xs == front + [x];
    CollectSnoc(front, x);
    CollectValid(front);
    SqueezeWeeds(Collect(front), x);
    assert Squeeze(Collect(front), x) + [] == Squeeze(Collect(front), x);
  }

  // Items of a group: valid, grouped, not deleted
  predicate ValidGroup(g: seq<Item>) {
    forall i :: 0 <= i < |g| ==> g[i].grouped && ValidItem(g[i])
  }

  lemma {:induction false} MovedValid(xs: seq<Item>, fromId: nat, toId: nat)
    requires NoDeletes(xs)
    ensures ValidGroup(Moved(xs, fromId, toId))
  {
    if xs != [] {
      MovedValid(xs[..|xs| - 1], fromId, toId);
    }
  }

  lemma {:induction false} UserItemsValid(id: nat, list: seq<(nat, seq<byte>)>)
    requires ValidAttr(UserAttrs(id, list))
    ensures ValidGroup(UserItems(id, list))
  {
    if list != [] {
      UserItemsValid(id, list[1..]);
    }
  }

  lemma AttrItemsValid(a: Attr)
    requires ValidAttr(a)
    ensures a.Move? || a.UserAttrs? ==> ValidGroup(AttrItems(a))
    ensures a.Plain? ==> AttrItems(a) == [Plainly(a.e)] && ValidItem(Plainly(a.e))
  {
    match a {
      case Move(toId, fromId, src) =>
        CommittedHasNoDeletes(src);
        MovedValid(Collect(DiskItems(src)), fromId, toId);
      case UserAttrs(id, list) => UserItemsValid(id, list);
      case _ =>
    }
  }

  lemma {:induction false} FlattenValid(attrs: seq<Attr>)
    requires ValidAttrs(attrs)
    ensures AllValid(Flatten(attrs))
  {
    if attrs != [] {
      assert ValidAttr(attrs[0]);
      AttrItemsValid(attrs[0]);
      FlattenValid(attrs[1..]);
    }
  }

  lemma CommitItemsValid(disk: seq<Entry>, attrs: seq<Attr>)
    requires ValidDisk(disk) && ValidAttrs(attrs)
    ensures AllValid(DiskItems(disk) + Flatten(attrs))
    ensures Entries(DiskItems(disk) + Flatten(attrs)) == disk + AppendedLog(attrs)
  {
    DiskItemsValid(disk);
    FlattenValid(attrs);
    EntriesOfDisk(disk);
    EntriesConcat(DiskItems(disk), Flatten(attrs));
  }

  // Every deletion comes before every group.
  predicate GroupsLast(xs: seq<Item>) {
    forall i, j :: 0 <= i < j < |xs| && xs[i].grouped && IsFileTag(xs[j].e.tag) ==> !IsDelete(xs[j].e.tag)
  }

  lemma {:induction false} FlattenGroupsLast(attrs: seq<Attr>)
    requires ValidAttrs(attrs) && DeletesFirst(attrs)
    ensures GroupsLast(Flatten(attrs))
    ensures (forall j :: 0 <= j < |attrs| && attrs[j].Plain? && IsFileTag(attrs[j].e.tag) ==>
              !IsDelete(attrs[j].e.tag)) ==>
              forall x :: x in Flatten(attrs) && IsFileTag(x.e.tag) ==> !IsDelete(x.e.tag)
  {
    if attrs != [] {
      assert ValidAttr(attrs[0]);
      AttrItemsValid(attrs[0]);
      FlattenGroupsLast(attrs[1..]);
    }
  }

  lemma {:induction false} NothingBuried(xs: seq<Item>, k: Key)
    requires GroupsLast(xs)
    ensures !Buried(xs, k)
  {
    if xs != [] {
      var front, x := xs[..|xs| - 1], xs[|xs| - 1];
      if IsFileTag(x.e.tag) && IsDelete(x.e.tag) {
        NothingGrouped(front, k);
      }
      if KeyBefore(x, k).Some? {
        NothingBuried(front, KeyBefore(x, k).value);
      }
    }
  }

  lemma CallersReviveNone(attrs: seq<Attr>)
    requires ValidAttrs(attrs) && DeletesFirst(attrs)
    ensures RevivesNone(attrs)
  {
    FlattenGroupsLast(attrs);
    forall k ensures !Revives(Flatten(attrs), k) {
      NothingBuried(Flatten(attrs), k);
    }
  }

  // ---- Compaction preserves meaning -------------------------------------------

  // The files with ids in [begin, end), numbered from 0
  function Slice(m: map<Key, Value>, begin: nat, end: nat): map<Key, Value> {
    map k | k in m && begin <= k.id < end :: Key(k.id - begin, k.cls) := m[k]
  }

  lemma SliceGet(m: map<Key, Value>, begin: nat, end: nat, k: Key)
    ensures Get(Slice(m, begin, end), k) ==
            if begin + k.id < end then Get(m, Key(begin + k.id, k.cls)) else None
  {
    var j := Key(begin + k.id, k.cls);
    assert begin + k.id < end && j in m ==> Slice(m, begin, end)[k] == m[j];
  }

  lemma {:induction false} MapsAgree<K, V>(m: map<K, V>, n: map<K, V>)
    requires forall k :: Get(m, k) == Get(n, k)
    ensures m == n
  {
    forall k ensures k in m <==> k in n {
      assert Get(m, k) == Get(n, k);
    }
    forall k | k in m ensures m[k] == n[k] {
      assert Get(m, k) == Get(n, k);
    }
  }

  lemma {:induction false} ReplaySnoc(log: seq<Entry>, e: Entry)
    ensures Replay(log + [e]) == Apply(Replay(log), e)
  {
    assert (log + [e])[..|log|] == log;
  }

  // A file's entry sets its own key and leaves the others alone.
  lemma {:induction false} SetGet(log: seq<Entry>, x: Item, k: Key)
    requires IsFileTag(x.e.tag)
    ensures Get(Replay(log + [x.e]).files, k) == Over(x, k, Get(Replay(log).files, k))
  {
    ReplaySnoc(log, x.e);
    ApplyGet(Replay(log).files, x.e, k);
  }

  // Replaying a window reads the last value of each key.
  lemma {:induction false} WindowGet(xs: seq<Item>, begin: nat, end: nat, k: Key)
    requires AllFileTags(xs)
    ensures Get(Replay(Window(xs, begin, end)).files, k) ==
            if begin + k.id < end then Last(xs, Key(begin + k.id, k.cls)) else None
  {
    if xs != [] {
      var front, last := xs[..|xs| - 1], xs[|xs| - 1];
      WindowGet(front, begin, end, k);
      var w := Window(front, begin, end);
      if begin <= last.e.tag.id < end {
        var x := WithId(last, last.e.tag.id - begin);
        assert Window(xs, begin, end) == w + [x.e];
        SetGet(w, x, k);
      } else {
        assert Window(xs, begin, end) == w + [];
        assert w + [] == w;
      }
    }
  }

  predicate OnlyFileTags(log: seq<Entry>) {
    forall i :: 0 <= i < |log| ==> IsFileTag(log[i].tag)
  }

  lemma {:induction false} WindowFileTags(xs: seq<Item>, begin: nat, end: nat)
    requires AllFileTags(xs)
    ensures OnlyFileTags(Window(xs, begin, end))
    ensures forall i :: 0 <= i < |Window(xs, begin, end)| ==> begin + Window(xs, begin, end)[i].tag.id < end
  {
    if xs != [] {
      WindowFileTags(xs[..|xs| - 1], begin, end);
    }
  }

  // The log after a commit, read as files
  function CommittedFiles(disk: seq<Entry>, attrs: seq<Attr>): map<Key, Value> {
    Replay(disk + AppendedLog(attrs)).files
  }

  // One key of the compacted log: the value the log and the attributes give
  // it, exactly when the attributes do not revive it.
  lemma CompactionGet(disk: seq<Entry>, attrs: seq<Attr>, begin: nat, end: nat, k: Key)
    requires ValidDisk(disk) && ValidAttrs(attrs)
    ensures var key, found := Key(begin + k.id, k.cls), Get(Replay(Compacted(disk, attrs, begin, end)).files, k);
      if key.id >= end then found == None
      else found == Get(CommittedFiles(disk, attrs), key) <==> !Revives(Flatten(attrs), key)
  {
    var xs, key := DiskItems(disk) + Flatten(attrs), Key(begin + k.id, k.cls);
    CommitItemsValid(disk, attrs);
    DiskItemsValid(disk);
    FlattenValid(attrs);
    CollectValid(xs);
    CollectMeaning(xs, key);
    RevivesAfter(DiskItems(disk), Flatten(attrs), key);
    WindowGet(Collect(xs), begin, end, k);
  }

  // Cutting out ids does not change what the rest means.
  lemma CompactionCut(disk: seq<Entry>, attrs: seq<Attr>, begin: nat, end: nat, k: Key)
    requires ValidDisk(disk) && ValidAttrs(attrs) && begin + k.id < end
    ensures Get(Replay(Compacted(disk, attrs, begin, end)).files, k) ==
            Last(Collect(DiskItems(disk) + Flatten(attrs)), Key(begin + k.id, k.cls))
  {
    var xs := DiskItems(disk) + Flatten(attrs);
    CommitItemsValid(disk, attrs);
    CollectValid(xs);
    WindowGet(Collect(xs), begin, end, k);
  }

  lemma CompactionShape(disk: seq<Entry>, attrs: seq<Attr>, begin: nat, end: nat)
    requires ValidDisk(disk) && ValidAttrs(attrs)
    ensures var out := Compacted(disk, attrs, begin, end);
      OnlyFileTags(out) && forall i :: 0 <= i < |out| ==> begin + out[i].tag.id < end
  {
    CommitItemsValid(disk, attrs);
    CollectValid(DiskItems(disk) + Flatten(attrs));
    WindowFileTags(Collect(DiskItems(disk) + Flatten(attrs)), begin, end);
  }

  // What compaction writes holds no splices and nothing but the entries of
  // files, and replaying it gives exactly the files with ids in [begin, end)
  // of the log followed by the commit's attributes, if and only if the
  // attributes revive nothing there.
  lemma CompactionPreserves(disk: seq<Entry>, attrs: seq<Attr>, begin: nat, end: nat)
    requires ValidDisk(disk) && ValidAttrs(attrs)
    ensures var out := Compacted(disk, attrs, begin, end);
      && OnlyFileTags(out)
      && (forall i :: 0 <= i < |out| ==> begin + out[i].tag.id < end)
      && (Replay(out).files == Slice(CommittedFiles(disk, attrs), begin, end) <==> RevivesNothing(attrs, begin, end))
  {
    hide Compacted, CommittedFiles, Slice, Replay, Revives, OnlyFileTags, ValidDisk, ValidAttrs, Flatten;
    CompactionShape(disk, attrs, begin, end);
    var m, n := Replay(Compacted(disk, attrs, begin, end)).files, Slice(CommittedFiles(disk, attrs), begin, end);
    if RevivesNothing(attrs, begin, end) {
      forall k ensures Get(m, k) == Get(n, k) {
        CompactionAgrees(disk, attrs, begin, end, k);
      }
      MapsAgree(m, n);
    } else {
      var key: Key :| begin <= key.id < end && Revives(Flatten(attrs), key);
      CompactionAgrees(disk, attrs, begin, end, Key(key.id - begin, key.cls));
    }
  }

  lemma CompactionAgrees(disk: seq<Entry>, attrs: seq<Attr>, begin: nat, end: nat, k: Key)
    requires ValidDisk(disk) && ValidAttrs(attrs)
    ensures var key := Key(begin + k.id, k.cls);
      Get(Replay(Compacted(disk, attrs, begin, end)).files, k) == Get(Slice(CommittedFiles(disk, attrs), begin, end), k)
      <==> key.id >= end || !Revives(Flatten(attrs), key)
  {
    hide Compacted, CommittedFiles, Slice, Replay, Revives, Flatten, Get, ValidDisk, ValidAttrs;
    CompactionGet(disk, attrs, begin, end, k);
    SliceGet(CommittedFiles(disk, attrs), begin, end, k);
  }

  // A user attribute set by a list, deleted, and followed by any other tag: the
  // log has no such attribute, the compacted log has it back.
  const REVIVING: seq<Attr> := [
    UserAttrs(0, [(5, [7])]),
    Plain(Entry(Tag(TYPE_USERATTR + 5, 0, SIZE_DELETED), [])),
    Plain(Entry(Tag(0x001, 0, 1), [97]))]

  lemma RevivingExample()
    ensures ValidAttrs(REVIVING)
    ensures var k := Key(0, TYPE_USERATTR + 5);
      && k !in CommittedFiles([], REVIVING)
      && k in Replay(Compacted([], REVIVING, 0, 1)).files
  {
    var k := Key(0, TYPE_USERATTR + 5);
    var set0 := Item(Entry(Tag(TYPE_USERATTR + 5, 0, 1), [7]), true, false);
    var deleted, named := Plainly(REVIVING[1].e), Plainly(REVIVING[2].e);
    var xs := [set0, deleted, named];
    assert REVIVING[0].attrs[1..] == [];
    assert AttrItems(REVIVING[0]) == [set0];
    assert REVIVING[1..] == [REVIVING[1], REVIVING[2]] && REVIVING[1..][1..] == [REVIVING[2]] &&
      [REVIVING[2]][1..] == [];
    assert Flatten([REVIVING[2]]) == [named];
    assert Flatten(REVIVING[1..]) == [deleted] + [named];
    assert Flatten(REVIVING) == xs;
    assert xs[..2] == [set0, deleted] && xs[..2][..1] == [set0];
    assert GroupValue([set0], k).Some? && Buried([set0, deleted], k);
    assert Revives(xs, k);
    BuriedIs(xs, k);
    CommitItemsValid([], REVIVING);
    assert DiskItems([]) + xs == xs;
    CompactionGet([], REVIVING, 0, 1, k);
  }

  // ---- The number of files ---------------------------------------------------------

  lemma {:induction false} CountOfFileTags(log: seq<Entry>, n: nat)
    requires OnlyFileTags(log) && forall i :: 0 <= i < |log| ==> log[i].tag.id < n
    ensures 0 <= Replay(log).count <= n
    ensures forall k {:trigger k in Replay(log).files} ::
              k in Replay(log).files && k.cls == TYPE_NAME ==> k.id < Replay(log).count
  {
    if log != [] {
      CountOfFileTags(log[..|log| - 1], n);
    }
  }

  // A fetch of the compacted log counts every file, as long as the last one
  // has a name.
  lemma CompactionCount(disk: seq<Entry>, attrs: seq<Attr>, begin: nat, end: nat)
    requires ValidDisk(disk) && ValidAttrs(attrs) && RevivesNothing(attrs, begin, end) && begin < end
    requires Key(end - 1, TYPE_NAME) in CommittedFiles(disk, attrs)
    ensures Replay(Compacted(disk, attrs, begin, end)).count == end - begin
  {
    hide Compacted, CommittedFiles, Revives, Flatten, ValidDisk, ValidAttrs;
    var out, last := Compacted(disk, attrs, begin, end), Key(end - 1 - begin, TYPE_NAME);
    CompactionShape(disk, attrs, begin, end);
    CountOfFileTags(out, end - begin);
    CompactionGet(disk, attrs, begin, end, last);
    assert Get(Replay(out).files, last).Some?;
    assert last in Replay(out).files;
  }

  // ---- Moves --------------------------------------------------------------------------

  // The value of key k after the source's value for its class is moved in
  function MovedInto(k: Key, toId: nat, source: Option<Value>, present: Option<Value>): Option<Value> {
    if k.id == toId && TYPE_STRUCT <= k.cls < 0x400 && source.Some? then source else present
  }

  lemma {:induction false} MovedOver(x: Item, fromId: nat, toId: nat, k: Key, source: Option<Value>,
                                     present: Option<Value>)
    requires IsFileTag(x.e.tag) && !IsDelete(x.e.tag)
    ensures var moved, before := MovedOne(x, fromId, toId), MovedInto(k, toId, source, present);
      (if moved != [] then Over(moved[0], k, before) else before) ==
      MovedInto(k, toId, Over(x, Key(fromId, k.cls), source), present)
  {
  }

  lemma {:induction false} MovedGet(log: seq<Entry>, xs: seq<Item>, fromId: nat, toId: nat, k: Key)
    requires AllFileTags(xs) && NoDeletes(xs)
    ensures Get(Replay(log + Entries(Moved(xs, fromId, toId))).files, k) ==
            MovedInto(k, toId, Last(xs, Key(fromId, k.cls)), Get(Replay(log).files, k))
  {
    if xs == [] {
      assert log + [] == log;
    } else {
      var front, last := xs[..|xs| - 1], xs[|xs| - 1];
      var w, one := Moved(front, fromId, toId), MovedOne(last, fromId, toId);
      MovedGet(log, front, fromId, toId, k);
      MovedOver(last, fromId, toId, k, Last(front, Key(fromId, k.cls)), Get(Replay(log).files, k));
      AppendGet(log, w, one, k);
    }
  }

  lemma {:induction false} AppendGet(log: seq<Entry>, w: seq<Item>, one: seq<Item>, k: Key)
    requires |one| <= 1 && (one != [] ==> IsFileTag(one[0].e.tag))
    ensures var before := Get(Replay(log + Entries(w)).files, k);
      Get(Replay(log + Entries(w + one)).files, k) == if one != [] then Over(one[0], k, before) else before
  {
    if one == [] {
      assert w + one == w;
    } else {
      EntriesConcat(w, one);
      assert one[..0] == [];
      assert Entries(one) == [one[0].e];
      SeqAssoc(log, Entries(w), [one[0].e]);
      SetGet(log + Entries(w), one[0], k);
    }
  }

  // A move gives the target every struct and user attribute of the source
  // file, and changes nothing else.
  lemma MoveCopies(log: seq<Entry>, a: Attr, k: Key)
    requires ValidAttr(a) && a.Move?
    ensures Get(Replay(log + AppendedLog([a])).files, k) ==
            MovedInto(k, a.toId, Get(Replay(a.src).files, Key(a.fromId, k.cls)), Get(Replay(log).files, k))
  {
    var c := Collect(DiskItems(a.src));
    DiskItemsValid(a.src);
    CollectValid(DiskItems(a.src));
    CollectMeaning(DiskItems(a.src), Key(a.fromId, k.cls));
    NothingGrouped(DiskItems(a.src), Key(a.fromId, k.cls));
    EntriesOfDisk(a.src);
    CommittedHasNoDeletes(a.src);
    assert Last(c, Key(a.fromId, k.cls)) == Get(Replay(a.src).files, Key(a.fromId, k.cls));
    assert Flatten([a]) == AttrItems(a) + [] == AttrItems(a);
    MovedGet(log, c, a.fromId, a.toId, k);
  }
}
