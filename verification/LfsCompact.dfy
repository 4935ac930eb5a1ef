// Compaction of a metadata log: the traversal that rewrites it, and the
// proof that what it writes means the same.

module LfsCompact {
  import opened Bytes
  import opened Options
  import opened Sequences
  import opened LfsLog
  import opened LfsTraverse

  lemma {:induction false} WindowConcat(xs: seq<Item>, ys: seq<Item>, begin: nat, end: nat)
    ensures Window(xs + ys, begin, end) == Window(xs, begin, end) + Window(ys, begin, end)
  {
    if ys == [] {
      assert xs + ys == xs;
    } else {
      assert (xs + ys)[..|xs + ys| - 1] == xs + ys[..|ys| - 1];
      WindowConcat(xs, ys[..|ys| - 1], begin, end);
    }
  }

  lemma {:induction false} EntriesConcat(xs: seq<Item>, ys: seq<Item>)
    ensures Entries(xs + ys) == Entries(xs) + Entries(ys)
  {
    if ys == [] {
      assert xs + ys == xs;
    } else {
      assert (xs + ys)[..|xs + ys| - 1] == xs + ys[..|ys| - 1];
      EntriesConcat(xs, ys[..|ys| - 1]);
    }
  }

  // ---- One thing traversed ------------------------------------------------

  predicate IsGroup(g: seq<Item>, id: nat) {
    forall i :: 0 <= i < |g| ==> g[i].grouped && IsFileTag(g[i].e.tag) && g[i].e.tag.id == id
  }

  function Renumber(g: seq<Item>, id: nat): seq<Item> {
    if g == [] then [] else [WithId(g[0], id)] + Renumber(g[1..], id)
  }

  // The members of a group move together: they do not touch each other, and
  // what follows the group shifts or deletes all of them alike.
  lemma {:induction false} CollectGroup(g: seq<Item>, id: nat, rest: seq<Item>)
    requires IsGroup(g, id)
    ensures Collect(g + rest) == TrackEach(g, rest) + Collect(rest)
  {
    if g == [] {
      assert g + rest == rest;
    } else {
      assert (g + rest)[1..] == g[1..] + rest;
      CollectGroup(g[1..], id, rest);
      TrackInGroup(g[0], g[1..], rest);
    }
  }

  function TrackEach(g: seq<Item>, rest: seq<Item>): seq<Item> {
    if g == [] then [] else ToSeq(Track(g[0], rest)) + TrackEach(g[1..], rest)
  }

  lemma {:induction false} TrackInGroup(x: Item, g: seq<Item>, rest: seq<Item>)
    requires x.grouped && forall i :: 0 <= i < |g| ==> IsFileTag(g[i].e.tag)
    ensures Track(x, g + rest) == Track(x, rest)
    decreases |g|
  {
    if g == [] {
      assert g + rest == rest;
    } else {
      assert (g + rest)[1..] == g[1..] + rest;
      TrackInGroup(x, g[1..], rest);
    }
  }

  // Where tracking takes a grouped item depends on its id alone.
  lemma {:induction false} TrackById(x: Item, y: Item, rest: seq<Item>)
    requires x.grouped && y.grouped && x.e.tag.id == y.e.tag.id
    ensures Track(x, rest).Some? <==> Track(y, rest).Some?
    ensures Track(x, rest).Some? ==>
              Track(x, rest).value == WithId(x, Track(y, rest).value.e.tag.id)
    decreases |rest|
  {
    if rest != [] && FilterStep(x, rest[0]).Some? {
      TrackById(FilterStep(x, rest[0]).value, FilterStep(y, rest[0]).value, rest[1..]);
    }
  }

  lemma {:induction false} TrackEachById(g: seq<Item>, id: nat, x: Item, rest: seq<Item>)
    requires IsGroup(g, id) && x.grouped && x.e.tag.id == id
    ensures TrackEach(g, rest) ==
            match Track(x, rest) case None => [] case Some(z) => Renumber(g, z.e.tag.id)
  {
    if g != [] {
      TrackById(g[0], x, rest);
      TrackEachById(g[1..], id, x, rest);
    }
  }

  // The tag an attribute is filtered by, and the item it is tracked as
  function LeadTag(a: Attr): Tag {
    match a
    case Noop => Tag(FROM_NOOP, 0, 0)
    case Plain(e) => e.tag
    case Move(toId, fromId, _) => Tag(FROM_MOVE, toId, fromId)
    case UserAttrs(id, attrs) => Tag(FROM_USERATTRS, id, |attrs|)
  }

  function LeadItem(a: Attr): Item {
    if a.Plain? then Plainly(a.e) else Item(Entry(LeadTag(a), []), true, false)
  }

  // The items an attribute stands for, at a given id
  function ItemsAt(a: Attr, id: nat): seq<Item> {
    match a
    case Noop => []
    case Plain(e) => [WithId(Plainly(e), id)]
    case Move(_, fromId, src) => Moved(Collect(DiskItems(src)), fromId, id)
    case UserAttrs(_, attrs) => UserItems(id, attrs)
  }

  lemma {:induction false} RenumberItems(a: Attr, id: nat)
    requires ValidAttr(a) && (a.Move? || a.UserAttrs?)
    ensures Renumber(AttrItems(a), id) == ItemsAt(a, id)
    ensures IsGroup(AttrItems(a), LeadTag(a).id)
  {
    match a {
      case Move(toId, fromId, src) =>
        MovedSilent(Collect(DiskItems(src)), fromId, toId);
        MovedRenumber(Collect(DiskItems(src)), fromId, toId, id);
      case UserAttrs(id0, attrs) =>
        UserItemsGroup(id0, attrs, id);
    }
  }

  lemma {:induction false} MovedRenumber(xs: seq<Item>, fromId: nat, id: nat, id': nat)
    ensures Renumber(Moved(xs, fromId, id), id') == Moved(xs, fromId, id')
  {
    if xs != [] {
      MovedRenumber(xs[..|xs| - 1], fromId, id, id');
      RenumberConcat(Moved(xs[..|xs| - 1], fromId, id), MovedOne(xs[|xs| - 1], fromId, id), id');
    }
  }

  lemma {:induction false} RenumberConcat(g: seq<Item>, h: seq<Item>, id: nat)
    ensures Renumber(g + h, id) == Renumber(g, id) + Renumber(h, id)
  {
    if g == [] {
      assert g + h == h;
    } else {
      assert (g + h)[1..] == g[1..] + h;
      RenumberConcat(g[1..], h, id);
    }
  }

  lemma {:induction false} UserItemsGroup(id: nat, attrs: seq<(nat, seq<byte>)>, id': nat)
    requires ValidAttr(UserAttrs(id, attrs))
    ensures IsGroup(UserItems(id, attrs), id)
    ensures Renumber(UserItems(id, attrs), id') == UserItems(id', attrs)
  {
    if attrs != [] {
      UserItemsGroup(id, attrs[1..], id');
    }
  }

  lemma {:induction false} RenumberSnoc(front: seq<Item>, last: Item, id: nat)
    ensures Entries(Renumber(front + [last], id)) == Entries(Renumber(front, id)) + [WithId(last, id).e]
  {
    RenumberConcat(front, [last], id);
    var one := [WithId(last, id)];
    assert Renumber([last], id) == one;
    EntriesConcat(Renumber(front, id), one);
    assert one[..0] == [];
  }

  lemma {:induction false} WindowGroup(g: seq<Item>, id: nat, begin: nat, end: nat)
    requires forall i :: 0 <= i < |g| ==> g[i].e.tag.id == id
    ensures Window(g, begin, end) ==
            if begin <= id < end then Entries(Renumber(g, id - begin)) else []
  {
    if g != [] {
      var front, last := g[..|g| - 1], g[|g| - 1];
      WindowGroup(front, id, begin, end);
      if begin <= id < end {
        assert g == front + [last];
        RenumberSnoc(front, last, id - begin);
        assert WindowOne(last.e, begin, end) == [WithId(last, id - begin).e];
      }
    }
  }

  // What one thing contributes to the window, given where tracking takes it
  function Contribution(a: Attr, z: Option<Item>, begin: nat, end: nat): seq<Entry> {
    match z
    case None => []
    case Some(y) => if begin <= y.e.tag.id < end then Entries(ItemsAt(a, y.e.tag.id - begin)) else []
  }

  lemma {:induction false} EmitOne(a: Attr, rest: seq<Item>, begin: nat, end: nat)
    requires ValidAttr(a) && !a.Noop? && IsFileTag(LeadTag(a))
    ensures Window(Collect(AttrItems(a) + rest), begin, end) ==
            Contribution(a, Track(LeadItem(a), rest), begin, end) + Window(Collect(rest), begin, end)
  {
    if a.Plain? {
      EmitPlain(a, rest, begin, end);
    } else {
      EmitGroup(a, rest, begin, end);
    }
  }

  lemma {:induction false} EmitPlain(a: Attr, rest: seq<Item>, begin: nat, end: nat)
    requires ValidAttr(a) && a.Plain? && IsFileTag(a.e.tag)
    ensures Window(Collect(AttrItems(a) + rest), begin, end) ==
            Contribution(a, Track(LeadItem(a), rest), begin, end) + Window(Collect(rest), begin, end)
  {
    var x := Plainly(a.e);
    assert ([x] + rest)[1..] == rest;
    assert Collect([x] + rest) == ToSeq(Track(x, rest)) + Collect(rest);
    WindowConcat(ToSeq(Track(x, rest)), Collect(rest), begin, end);
    TrackKeeps(x, rest);
    ContributionPlain(a, Track(x, rest), begin, end);
  }

  lemma {:induction false} ContributionPlain(a: Attr, z: Option<Item>, begin: nat, end: nat)
    requires a.Plain? && (z.Some? ==> z.value == WithId(Plainly(a.e), z.value.e.tag.id))
    ensures Window(ToSeq(z), begin, end) == Contribution(a, z, begin, end)
  {
    if z.Some? {
      var one := [z.value];
      assert one[..0] == [];
      assert Window(one, begin, end) == WindowOne(z.value.e, begin, end);
      var id := z.value.e.tag.id;
      if begin <= id {
        var moved := [WithId(Plainly(a.e), id - begin)];
        assert moved[..0] == [];
        assert Entries(moved) == [moved[0].e];
      }
    }
  }

  lemma {:induction false} EmitGroup(a: Attr, rest: seq<Item>, begin: nat, end: nat)
    requires ValidAttr(a) && (a.Move? || a.UserAttrs?)
    ensures Window(Collect(AttrItems(a) + rest), begin, end) ==
            Contribution(a, Track(LeadItem(a), rest), begin, end) + Window(Collect(rest), begin, end)
  {
    RenumberItems(a, 0);
    GroupContribution(a, rest, begin, end);
    hide AttrItems, Track, TrackEach, Contribution;
    var g := AttrItems(a);
    CollectGroup(g, LeadTag(a).id, rest);
    WindowConcat(TrackEach(g, rest), Collect(rest), begin, end);
  }

  lemma {:induction false} TrackedContribution(a: Attr, z: Option<Item>, begin: nat, end: nat)
    requires ValidAttr(a) && (a.Move? || a.UserAttrs?)
    ensures Contribution(a, z, begin, end) ==
            Window(if z.Some? then Renumber(AttrItems(a), z.value.e.tag.id) else [], begin, end)
  {
    hide ValidAttr, Renumber, Entries, ItemsAt, AttrItems;
    assert Window([], begin, end) == [];
    hide Window;
    if z.Some? {
      EmitTracked(a, z.value.e.tag.id, begin, end);
    }
  }

  lemma {:induction false} GroupContribution(a: Attr, rest: seq<Item>, begin: nat, end: nat)
    requires ValidAttr(a) && (a.Move? || a.UserAttrs?)
    ensures Window(TrackEach(AttrItems(a), rest), begin, end) == Contribution(a, Track(LeadItem(a), rest), begin, end)
  {
    RenumberItems(a, 0);
    hide *;
    var x := LeadItem(a);
    TrackEachById(AttrItems(a), LeadTag(a).id, x, rest);
    TrackedContribution(a, Track(x, rest), begin, end);
  }

  lemma {:induction false} EmitTracked(a: Attr, id: nat, begin: nat, end: nat)
    requires ValidAttr(a) && (a.Move? || a.UserAttrs?)
    ensures Window(Renumber(AttrItems(a), id), begin, end) ==
            if begin <= id < end then Entries(ItemsAt(a, id - begin)) else []
  {
    hide Window, Renumber, Entries, ItemsAt, AttrItems, Moved, UserItems;
    WindowRenumbered(AttrItems(a), id, begin, end);
    if begin <= id {
      RenumberItems(a, id - begin);
    }
  }

  // Tracking changes nothing but the id.
  lemma {:induction false} TrackKeeps(x: Item, rest: seq<Item>)
    ensures Track(x, rest).Some? ==> Track(x, rest).value == WithId(x, Track(x, rest).value.e.tag.id)
    decreases |rest|
  {
    if rest != [] && FilterStep(x, rest[0]).Some? {
      TrackKeeps(FilterStep(x, rest[0]).value, rest[1..]);
    }
  }

  lemma {:induction false} RenumberTwice(g: seq<Item>, id: nat, id': nat)
    ensures Renumber(Renumber(g, id), id') == Renumber(g, id')
    ensures forall i :: 0 <= i < |Renumber(g, id)| ==> Renumber(g, id)[i].e.tag.id == id
  {
    if g != [] {
      RenumberTwice(g[1..], id, id');
    }
  }

  lemma {:induction false} WindowRenumbered(g: seq<Item>, id: nat, begin: nat, end: nat)
    ensures Window(Renumber(g, id), begin, end) ==
            if begin <= id < end then Entries(Renumber(g, id - begin)) else []
  {
    RenumberTwice(g, id, if begin <= id then id - begin else id);
    WindowGroup(Renumber(g, id), id, begin, end);
  }

  // ---- The traversal used by compaction ------------------------------------------

  // What compaction writes for ids [begin, end)
  function Compacted(disk: seq<Entry>, attrs: seq<Attr>, begin: nat, end: nat): seq<Entry> {
    Window(Collect(DiskItems(disk) + Flatten(attrs)), begin, end)
  }

  // lfs_dir_traverse as lfs_dir_compact calls it: only file tags, each past
  // the filter, with ids in [begin, end) shifted down by begin.
  method Traverse(disk: seq<Entry>, attrs: seq<Attr>, begin: nat, end: nat) returns (out: seq<Entry>)
    requires ValidDisk(disk) && ValidAttrs(attrs)
    ensures out == Compacted(disk, attrs, begin, end)
  {
    out := [];
    var k: nat, j: nat := 0, 0;
    ghost var whole := Compacted(disk, attrs, begin, end);
    assert disk[0..] == disk && attrs[0..] == attrs;
    while k < |disk| || j < |attrs|
      invariant k <= |disk| && j <= |attrs| && (k == |disk| || j == 0)
      invariant out + WindowRest(disk, k, attrs, j, begin, end) == whole
      decreases |disk| - k + |attrs| - j
    {
      RestNext(disk, k, attrs, j);
      var a := Next(disk, k, attrs, j);
      k, j := if k < |disk| then k + 1 else k, if k < |disk| then j else j + 1;
      ghost var z := Track(LeadItem(a), Rest(disk, k, attrs, j));
      var part := TraverseOne(a, disk, k, attrs, j, begin, end, z);
      ShareOfWindow(a, Rest(disk, k, attrs, j), begin, end);
      SeqAssoc(out, part, WindowRest(disk, k, attrs, j, begin, end));
      out := out + part;
    }
    RestEnd(disk, attrs);
  }

  function WindowRest(disk: seq<Entry>, k: nat, attrs: seq<Attr>, j: nat, begin: nat, end: nat): seq<Entry>
    requires k <= |disk| && j <= |attrs|
  {
    Window(Collect(Rest(disk, k, attrs, j)), begin, end)
  }

  // What one round of the loop passes on, given where tracking takes its tag
  function Share(a: Attr, z: Option<Item>, begin: nat, end: nat): seq<Entry> {
    if a.Noop? || !IsFileTag(LeadTag(a)) then [] else Contribution(a, z, begin, end)
  }

  lemma {:induction false} ShareOfWindow(a: Attr, rest: seq<Item>, begin: nat, end: nat)
    requires ValidAttr(a)
    ensures Window(Collect(AttrItems(a) + rest), begin, end) ==
            Share(a, Track(LeadItem(a), rest), begin, end) + Window(Collect(rest), begin, end)
  {
    if a.Noop? {
      assert AttrItems(a) + rest == rest;
    } else if !IsFileTag(LeadTag(a)) {
      SkipOne(a, rest, begin, end);
    } else {
      EmitOne(a, rest, begin, end);
    }
  }

  // One round of the loop: filter one tag, then pass it on if it is left.
  method TraverseOne(a: Attr, disk: seq<Entry>, k: nat, attrs: seq<Attr>, j: nat, begin: nat, end: nat,
                     ghost z: Option<Item>)
    returns (part: seq<Entry>)
    requires ValidAttr(a) && ValidDisk(disk) && ValidAttrs(attrs)
    requires k <= |disk| && j <= |attrs| && (k == |disk| || j == 0)
    requires z == Track(LeadItem(a), Rest(disk, k, attrs, j))
    ensures part == Share(a, z, begin, end)
  {
    hide ItemsAt, Track, Rest, Entries;
    // only tags of files are looked up among what follows
    if a.Noop? || !IsFileTag(LeadTag(a)) {
      return [];
    }
    var id := FilterLead(a, disk, k, attrs, j, z);
    // the id it has in the end decides about the window
    if id == None || !(begin <= id.value < end) {
      return [];
    }
    part := Pass(a, id.value - begin);
  }

  method FilterLead(a: Attr, disk: seq<Entry>, k: nat, attrs: seq<Attr>, j: nat, ghost z: Option<Item>)
    returns (id: Option<nat>)
    requires ValidAttr(a) && !a.Noop? && IsFileTag(LeadTag(a)) && ValidDisk(disk) && ValidAttrs(attrs)
    requires k <= |disk| && j <= |attrs| && (k == |disk| || j == 0)
    requires z == Track(LeadItem(a), Rest(disk, k, attrs, j))
    ensures id == match z case None => None case Some(y) => Some(y.e.tag.id)
  {
    ghost var x := LeadItem(a);
    assert Carries(LeadTag(a), x) && IsFileTag(x.e.tag) && LeadTag(a).typ != FROM_NOOP;
    var f := Filter(LeadTag(a), disk, k, attrs, j, x);
    id := if f.Some? then Some(f.value.id) else None;
  }

  // Pass one thing on at its new id
  method Pass(a: Attr, id: nat) returns (part: seq<Entry>)
    requires ValidAttr(a)
    ensures part == Entries(ItemsAt(a, id))
  {
    match a {
      case Noop =>
        part := [];
      case Plain(e) =>
        part := [e.(tag := e.tag.(id := id))];
        ghost var moved := [WithId(Plainly(e), id)];
        assert moved[..0] == [];
      case Move(_, fromId, src) =>
        part := TraverseMove(src, fromId, id);
      case UserAttrs(_, list) =>
        part := TraverseUserAttrs(list, id);
    }
  }

  lemma {:induction false} SkipOne(a: Attr, rest: seq<Item>, begin: nat, end: nat)
    requires ValidAttr(a) && !IsFileTag(LeadTag(a))
    ensures Window(Collect(AttrItems(a) + rest), begin, end) == [] + Window(Collect(rest), begin, end)
  {
    var x := Plainly(a.e);
    assert ([x] + rest)[1..] == rest;
    assert Collect([x] + rest) == [] + Collect(rest);
    assert [] + Collect(rest) == Collect(rest);
  }

  lemma {:induction false} MovedConcat(xs: seq<Item>, ys: seq<Item>, fromId: nat, toId: nat)
    ensures Moved(xs + ys, fromId, toId) == Moved(xs, fromId, toId) + Moved(ys, fromId, toId)
  {
    if ys == [] {
      assert xs + ys == xs;
    } else {
      assert (xs + ys)[..|xs + ys| - 1] == xs + ys[..|ys| - 1];
      MovedConcat(xs, ys[..|ys| - 1], fromId, toId);
    }
  }

  // What one entry of the other pair contributes to a move
  function MovedPart(e: Entry, z: Option<Item>, fromId: nat, toId: nat): seq<Entry> {
    if TYPE_STRUCT <= e.tag.typ < 0x400 && z.Some? && z.value.e.tag.id == fromId
    then [e.(tag := e.tag.(id := toId))] else []
  }

  lemma {:induction false} MovedNext(e: Entry, rest: seq<Item>, fromId: nat, toId: nat)
    ensures Entries(Moved(Collect([Plainly(e)] + rest), fromId, toId)) ==
            MovedPart(e, Track(Plainly(e), rest), fromId, toId) + Entries(Moved(Collect(rest), fromId, toId))
  {
    var x := Plainly(e);
    var z := Track(x, rest);
    assert ([x] + rest)[1..] == rest;
    var head := if IsFileTag(e.tag) then ToSeq(z) else [];
    assert Collect([x] + rest) == head + Collect(rest);
    MovedConcat(head, Collect(rest), fromId, toId);
    EntriesConcat(Moved(head, fromId, toId), Moved(Collect(rest), fromId, toId));
    TrackKeeps(x, rest);
    MovedHead(e, if IsFileTag(e.tag) then z else None, fromId, toId);
  }

  lemma {:induction false} MovedHead(e: Entry, z: Option<Item>, fromId: nat, toId: nat)
    requires z.Some? ==> z.value == WithId(Plainly(e), z.value.e.tag.id)
    ensures Entries(Moved(ToSeq(z), fromId, toId)) == MovedPart(e, z, fromId, toId)
  {
    if z.Some? {
      var one := [z.value];
      assert one[..0] == [];
      var moved := MovedOne(z.value, fromId, toId);
      assert Moved(one, fromId, toId) == moved;
      assert moved != [] ==> moved[..0] == [];
    }
  }

  function MovedRest(src: seq<Entry>, k: nat, fromId: nat, toId: nat): seq<Entry>
    requires k <= |src|
  {
    Entries(Moved(Collect(Rest(src, k, [], 0)), fromId, toId))
  }

  lemma {:induction false} MovedRestNext(src: seq<Entry>, k: nat, fromId: nat, toId: nat)
    requires ValidDisk(src) && k < |src|
    ensures MovedRest(src, k, fromId, toId) ==
            MovedPart(src[k], Track(Plainly(src[k]), Rest(src, k + 1, [], 0)), fromId, toId)
            + MovedRest(src, k + 1, fromId, toId)
  {
    RestNext(src, k, [], 0);
    MovedNext(src[k], Rest(src, k + 1, [], 0), fromId, toId);
  }

  lemma {:induction false} MovedRestEnds(src: seq<Entry>, fromId: nat, toId: nat)
    ensures MovedRest(src, 0, fromId, toId) == Entries(Moved(Collect(DiskItems(src)), fromId, toId))
    ensures MovedRest(src, |src|, fromId, toId) == []
  {
    assert src[0..] == src;
    assert Flatten([][0..]) == [];
    assert DiskItems(src) + [] == DiskItems(src);
    RestEnd(src, []);
  }

  // The pass over another pair's log for one file of it
  method TraverseMove(src: seq<Entry>, fromId: nat, toId: nat) returns (part: seq<Entry>)
    requires ValidDisk(src)
    ensures part == Entries(Moved(Collect(DiskItems(src)), fromId, toId))
  {
    part := [];
    var k: nat := 0;
    ghost var whole := MovedRest(src, 0, fromId, toId);
    MovedRestEnds(src, fromId, toId);
    while k < |src|
      invariant k <= |src|
      invariant part + MovedRest(src, k, fromId, toId) == whole
    {
      MovedRestNext(src, k, fromId, toId);
      var one := TraverseMoveOne(src, k, fromId, toId);
      k := k + 1;
      SeqAssoc(part, one, MovedRest(src, k, fromId, toId));
      part := part + one;
    }
  }

  method TraverseMoveOne(src: seq<Entry>, k: nat, fromId: nat, toId: nat) returns (part: seq<Entry>)
    requires ValidDisk(src) && k < |src|
    ensures part == MovedPart(src[k], Track(Plainly(src[k]), Rest(src, k + 1, [], 0)), fromId, toId)
  {
    var e := src[k];
    if TYPE_STRUCT <= e.tag.typ < 0x400 {
      var f := Filter(e.tag, src, k + 1, [], 0, Plainly(e));
      if f.Some? && f.value.id == fromId {
        return [Entry(f.value.(id := toId), e.data)];
      }
    }
    return [];
  }

  lemma {:induction false} UserItemsNext(list: seq<(nat, seq<byte>)>, i: nat, id: nat)
    requires i < |list|
    ensures Entries(UserItems(id, list[i..])) ==
            [Entry(Tag(TYPE_USERATTR + list[i].0, id, |list[i].1|), list[i].1)] + Entries(UserItems(id, list[i + 1..]))
  {
    var one := [Item(Entry(Tag(TYPE_USERATTR + list[i].0, id, |list[i].1|), list[i].1), true, false)];
    assert list[i..][1..] == list[i + 1..];
    EntriesConcat(one, UserItems(id, list[i + 1..]));
    assert one[..0] == [];
  }

  method TraverseUserAttrs(list: seq<(nat, seq<byte>)>, id: nat) returns (part: seq<Entry>)
    ensures part == Entries(UserItems(id, list))
  {
    part := [];
    var i: nat := 0;
    ghost var whole := Entries(UserItems(id, list));
    assert list[0..] == list;
    while i < |list|
      invariant i <= |list|
      invariant part + Entries(UserItems(id, list[i..])) == whole
    {
      UserItemsNext(list, i, id);
      var one := [Entry(Tag(TYPE_USERATTR + list[i].0, id, |list[i].1|), list[i].1)];
      i := i + 1;
      SeqAssoc(part, one, Entries(UserItems(id, list[i..])));
      part := part + one;
    }
  }
}
