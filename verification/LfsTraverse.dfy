// lfs_dir_traverse with lfs_dir_traverse_filter: rewriting a log, together
// with a list of pending attributes, into a log without splices.

module LfsTraverse {
  import opened Bytes
  import opened Options
  import opened LfsLog

  // A pending attribute.  `Move` copies the structs and user attributes of a
  // file of another pair; `UserAttrs` stands for a list of user attributes.
  datatype Attr =
    | Noop
    | Plain(e: Entry)
    | Move(toId: nat, fromId: nat, src: seq<Entry>)
    | UserAttrs(id: nat, attrs: seq<(nat, seq<byte>)>)

  // One entry as the traversal treats it.  The entries a Move or a UserAttrs
  // stands for are `grouped`: later tags shift or delete them by id but never
  // supersede them.  Those of a Move are also `silent`: they filter nothing.
  datatype Item = Item(e: Entry, grouped: bool, silent: bool)

  // ---- The filter --------------------------------------------------------

  // lfs_dir_traverse_filter, one step: the tag `f` seen past the later item
  // x, or None once it has no effect any more.
  function FilterStep(f: Item, x: Item): Option<Item> {
    var t := x.e.tag;
    if x.silent then Some(f)
    else if t.typ == TYPE_DELETE && t.id == f.e.tag.id then None
    else if !f.grouped && (KeyOf(t) == KeyOf(f.e.tag) || IsDelete(f.e.tag)) then None
    else if IsSplice(t) && t.id <= f.e.tag.id then Some(WithId(f, ShiftId(f.e.tag.id, t)))
    else Some(f)
  }

  function ShiftId(id: nat, t: Tag): nat {
    if t.typ == TYPE_CREATE then id + 1 else if id > 0 then id - 1 else 0
  }

  function WithId(f: Item, id: nat): Item {
    f.(e := f.e.(tag := f.e.tag.(id := id)))
  }

  // f past all of xs
  function Track(f: Item, xs: seq<Item>): Option<Item>
    decreases |xs|
  {
    if xs == [] then Some(f)
    else
      match FilterStep(f, xs[0])
      case None => None
      case Some(g) => Track(g, xs[1..])
  }

  function ToSeq<T>(o: Option<T>): seq<T> {
    if o.Some? then [o.value] else []
  }

  // Every file entry of xs past the items after it, or nothing if superseded
  function Collect(xs: seq<Item>): seq<Item> {
    if xs == [] then []
    else Head(xs) + Collect(xs[1..])
  }

  // The entries with ids in [begin, end), numbered from 0
  function Window(xs: seq<Item>, begin: nat, end: nat): seq<Entry> {
    if xs == [] then []
    else Window(xs[..|xs| - 1], begin, end) + WindowOne(xs[|xs| - 1].e, begin, end)
  }

  function WindowOne(e: Entry, begin: nat, end: nat): seq<Entry> {
    if begin <= e.tag.id < end then [e.(tag := e.tag.(id := e.tag.id - begin))] else []
  }

  function Entries(xs: seq<Item>): (es: seq<Entry>)
    ensures |es| == |xs|
  {
    if xs == [] then [] else Entries(xs[..|xs| - 1]) + [xs[|xs| - 1].e]
  }

  // ---- Collecting one more item -------------------------------------------

  function Squeeze(xs: seq<Item>, x: Item): seq<Item> {
    if xs == [] then []
    else Squeeze(xs[..|xs| - 1], x) + ToSeq(FilterStep(xs[|xs| - 1], x))
  }

  function Appended(x: Item): seq<Item> {
    if IsFileTag(x.e.tag) then [x] else []
  }

  lemma {:induction false} TrackSnoc(f: Item, xs: seq<Item>, x: Item)
    ensures Track(f, xs + [x]) ==
            match Track(f, xs) case None => None case Some(g) => FilterStep(g, x)
    decreases |xs|
  {
    if xs == [] {
    } else {
      assert (xs + [x])[1..] == xs[1..] + [x];
      match FilterStep(f, xs[0])
      case None =>
      case Some(g) => TrackSnoc(g, xs[1..], x);
    }
  }

  lemma {:induction false} SqueezeConcat(xs: seq<Item>, ys: seq<Item>, x: Item)
    ensures Squeeze(xs + ys, x) == Squeeze(xs, x) + Squeeze(ys, x)
  {
    if ys == [] {
      assert xs + ys == xs;
    } else {
      assert (xs + ys)[..|xs + ys| - 1] == xs + ys[..|ys| - 1];
      SqueezeConcat(xs, ys[..|ys| - 1], x);
    }
  }

  function Head(xs: seq<Item>): seq<Item>
    requires xs != []
  {
    if IsFileTag(xs[0].e.tag) then ToSeq(Track(xs[0], xs[1..])) else []
  }

  lemma {:induction false} CollectSnoc(xs: seq<Item>, x: Item)
    ensures Collect(xs + [x]) == Squeeze(Collect(xs), x) + Appended(x)
  {
    if xs == [] {
      assert (xs + [x])[1..] == [];
    } else {
      assert (xs + [x])[1..] == xs[1..] + [x];
      CollectSnoc(xs[1..], x);
      HeadSnoc(xs, x);
      SqueezeConcat(Head(xs), Collect(xs[1..]), x);
    }
  }

  lemma {:induction false} HeadSnoc(xs: seq<Item>, x: Item)
    requires xs != []
    ensures Head(xs + [x]) == Squeeze(Head(xs), x)
  {
    assert (xs + [x])[1..] == xs[1..] + [x];
    TrackSnoc(xs[0], xs[1..], x);
    var head := Head(xs);
    assert head != [] ==> head[..0] == [];
  }

  // ---- What a collected list means -----------------------------------------

  // The entries a reader may be restricted to: all of them, those that are not
  // deleted attributes, or those that belong to a group.
  datatype Which = All | Live | Grouped

  predicate Sees(w: Which, x: Item) {
    match w
    case All => true
    case Live => !IsDelete(x.e.tag)
    case Grouped => x.grouped
  }

  // The value the last of these entries for key k gives it
  function LastOf(xs: seq<Item>, k: Key, w: Which): Option<Value> {
    if xs == [] then None
    else
      var x, older := xs[|xs| - 1], LastOf(xs[..|xs| - 1], k, w);
      if Sees(w, x) then Over(x, k, older) else older
  }

  function Last(xs: seq<Item>, k: Key): Option<Value> {
    LastOf(xs, k, All)
  }

  function Over(x: Item, k: Key, older: Option<Value>): Option<Value> {
    if KeyOf(x.e.tag) != k then older
    else if IsDelete(x.e.tag) then None
    else Some(ValueOf(x.e))
  }

  predicate AllFileTags(xs: seq<Item>) {
    forall i :: 0 <= i < |xs| ==> IsFileTag(xs[i].e.tag)
  }

  // The key that x moves to k; a CREATE moves nothing to its own id.
  function KeyBefore(x: Item, k: Key): Option<Key> {
    var t := x.e.tag;
    if t.typ == TYPE_CREATE && t.id <= k.id then
      if t.id == k.id then None else Some(Key(k.id - 1, k.cls))
    else if t.typ == TYPE_DELETE && t.id <= k.id then Some(Key(k.id + 1, k.cls))
    else Some(k)
  }

  predicate Supersedes(x: Item, k: Key) {
    IsFileTag(x.e.tag) && !x.silent && KeyOf(x.e.tag) == k
  }

  // An item that x lets through keeps its payload and moves to the new key.
  lemma {:induction false} FilterStepKey(f: Item, x: Item)
    requires IsFileTag(f.e.tag) && ValidItem(x)
    ensures var r := FilterStep(f, x); r.Some? ==>
              && KeyBefore(x, KeyOf(r.value.e.tag)) == Some(KeyOf(f.e.tag))
              && r.value == WithId(f, r.value.e.tag.id)
    ensures FilterStep(f, x) == None ==>
              || (x.e.tag.typ == TYPE_DELETE && x.e.tag.id == f.e.tag.id)
              || Supersedes(x, KeyOf(f.e.tag))
              || IsDelete(f.e.tag)
  {
  }

  predicate ValidItem(x: Item) {
    ValidEntry(x.e) && (x.silent ==> x.grouped) && (x.grouped ==> IsFileTag(x.e.tag) && !IsDelete(x.e.tag))
  }

  predicate AllValid(xs: seq<Item>) {
    forall i :: 0 <= i < |xs| ==> ValidItem(xs[i])
  }

  // What is left to see of a list squeezed past x: any tag drops the deleted
  // attributes before it, and a tag for the same key all but the groups.
  function Spared(x: Item, k: Key, w: Which): Which {
    if x.silent then w
    else if Supersedes(x, k) then Grouped
    else if w == All then Live
    else w
  }

  lemma {:induction false} LastSqueeze(xs: seq<Item>, x: Item, k: Key, w: Which)
    requires AllFileTags(xs) && AllValid(xs) && ValidItem(x)
    ensures LastOf(Squeeze(xs, x), k, w) ==
            match KeyBefore(x, k) case None => None case Some(k0) => LastOf(xs, k0, Spared(x, k, w))
  {
    if xs != [] {
      var front, f := xs[..|xs| - 1], xs[|xs| - 1];
      LastSqueeze(front, x, k, w);
      LastSnoc(Squeeze(front, x), FilterStep(f, x), k, w);
      SqueezeOver(f, x, k, w, LastOf(Squeeze(front, x), k, w));
    }
  }

  lemma {:induction false} SqueezeOver(f: Item, x: Item, k: Key, w: Which, older: Option<Value>)
    requires IsFileTag(f.e.tag) && ValidItem(f) && ValidItem(x)
    requires KeyBefore(x, k) == None ==> older == None
    ensures OverIf(FilterStep(f, x), k, w, older) ==
            match KeyBefore(x, k)
            case None => None
            case Some(k0) => OverIf(Some(f), k0, Spared(x, k, w), older)
  {
    FilterStepKey(f, x);
  }

  function OverIf(r: Option<Item>, k: Key, w: Which, older: Option<Value>): Option<Value> {
    if r.Some? && Sees(w, r.value) then Over(r.value, k, older) else older
  }

  lemma {:induction false} LastSnoc(ys: seq<Item>, r: Option<Item>, k: Key, w: Which)
    ensures LastOf(ys + ToSeq(r), k, w) == OverIf(r, k, w, LastOf(ys, k, w))
  {
    if r.Some? {
      assert (ys + [r.value])[..|ys|] == ys;
    } else {
      assert ys + [] == ys;
    }
  }

  // ---- Compaction preserves meaning -----------------------------------------

  predicate NoGroups(xs: seq<Item>) {
    forall i :: 0 <= i < |xs| ==> !xs[i].grouped
  }

  // The last value a group gave to what is now key k
  function GroupValue(xs: seq<Item>, k: Key): Option<Value> {
    if xs == [] then None
    else
      var x, front := xs[|xs| - 1], xs[..|xs| - 1];
      if x.grouped && KeyOf(x.e.tag) == k then Some(ValueOf(x.e))
      else match KeyBefore(x, k) case None => None case Some(k0) => GroupValue(front, k0)
  }

  // Key k was deleted, on top of a value from a group.
  predicate Buried(xs: seq<Item>, k: Key) {
    xs != [] &&
    var x, front := xs[|xs| - 1], xs[..|xs| - 1];
    if IsFileTag(x.e.tag) && KeyOf(x.e.tag) == k then IsDelete(x.e.tag) && GroupValue(front, k).Some?
    else match KeyBefore(x, k) case None => false case Some(k0) => Buried(front, k0)
  }

  // The deletion of key k is the last tag that filters anything.
  predicate DeletedLast(xs: seq<Item>, k: Key) {
    xs != [] &&
    var x := xs[|xs| - 1];
    if x.silent then DeletedLast(xs[..|xs| - 1], k)
    else IsFileTag(x.e.tag) && IsDelete(x.e.tag) && KeyOf(x.e.tag) == k
  }

  // A later tag drops the deletion but not the value below it.
  predicate Revives(xs: seq<Item>, k: Key) {
    Buried(xs, k) && !DeletedLast(xs, k)
  }

  // The value the collected list keeps for key k, given the value v the log
  // gives it
  function Kept(xs: seq<Item>, k: Key, w: Which, v: Option<Value>): Option<Value> {
    if w == Grouped then GroupValue(xs, k)
    else if v.Some? || (w == All && DeletedLast(xs, k)) then v
    else GroupValue(xs, k)
  }

  function FileValue(xs: seq<Item>, k: Key): Option<Value> {
    Get(Replay(Entries(xs)).files, k)
  }

  // The last value collected for a key is the value the whole log gives it,
  // unless the log revives it.
  lemma CollectMeaning(xs: seq<Item>, k: Key)
    requires AllValid(xs)
    ensures Last(Collect(xs), k) == FileValue(xs, k) <==> !Revives(xs, k)
  {
    CollectKeeps(xs);
    assert LastOf(Collect(xs), k, All) == Kept(xs, k, All, FileValue(xs, k));
    BuriedIs(xs, k);
  }

  lemma {:induction false} BuriedIs(xs: seq<Item>, k: Key)
    requires AllValid(xs)
    ensures Buried(xs, k) <==> GroupValue(xs, k).Some? && FileValue(xs, k).None?
  {
    if xs != [] {
      var front, x := xs[..|xs| - 1], xs[|xs| - 1];
      assert xs == front + [x];
      FileValueSnoc(front, x, k);
      if KeyBefore(x, k).Some? {
        BuriedIs(front, KeyBefore(x, k).value);
      }
    }
  }

  lemma FileValueSnoc(front: seq<Item>, x: Item, k: Key)
    requires ValidItem(x)
    ensures FileValue(front + [x], k) ==
            if IsFileTag(x.e.tag) && KeyOf(x.e.tag) == k then Over(x, k, None)
            else match KeyBefore(x, k) case None => None case Some(k0) => FileValue(front, k0)
  {
    assert (front + [x])[..|front|] == front;
    var before := Entries(front);
    assert (before + [x.e])[..|before|] == before;
    ApplyGet(Replay(before).files, x.e, k);
  }

  lemma {:induction false} CollectValid(xs: seq<Item>)
    requires AllValid(xs)
    ensures AllFileTags(Collect(xs)) && AllValid(Collect(xs))
    ensures NoGroups(xs) ==> NoGroups(Collect(xs))
  {
    if xs != [] {
      CollectValid(xs[1..]);
      if IsFileTag(xs[0].e.tag) {
        TrackValid(xs[0], xs[1..]);
      }
    }
  }

  lemma {:induction false} TrackValid(f: Item, xs: seq<Item>)
    requires ValidItem(f) && IsFileTag(f.e.tag)
    ensures Track(f, xs).Some? ==>
              var g := Track(f, xs).value; ValidItem(g) && IsFileTag(g.e.tag) && g.grouped == f.grouped
    decreases |xs|
  {
    if xs != [] && FilterStep(f, xs[0]).Some? {
      TrackValid(FilterStep(f, xs[0]).value, xs[1..]);
    }
  }

  lemma {:induction false} CollectKeeps(xs: seq<Item>)
    requires AllValid(xs)
    ensures forall k, w :: LastOf(Collect(xs), k, w) == Kept(xs, k, w, FileValue(xs, k))
  {
    if xs != [] {
      var front, x := xs[..|xs| - 1], xs[|xs| - 1];
      assert xs == front + [x];
      CollectKeeps(front);
      forall k, w ensures LastOf(Collect(xs), k, w) == Kept(xs, k, w, FileValue(xs, k)) {
        CollectKeepsOne(front, x, k, w);
      }
    }
  }

  lemma {:induction false} CollectKeepsOne(front: seq<Item>, x: Item, k: Key, w: Which)
    requires AllValid(front) && ValidItem(x)
    requires forall k, w :: LastOf(Collect(front), k, w) == Kept(front, k, w, FileValue(front, k))
    ensures var xs := front + [x]; LastOf(Collect(xs), k, w) == Kept(xs, k, w, FileValue(xs, k))
  {
    hide Collect, Squeeze, LastOf, Over, OverIf, Kept, FileValue, KeyBefore, Spared;
    var ys := Squeeze(Collect(front), x);
    CollectValid(front);
    CollectSnoc(front, x);
    LastSqueeze(Collect(front), x, k, w);
    LastSnoc(ys, if IsFileTag(x.e.tag) then Some(x) else None, k, w);
    KeptSnoc(front, x, k, w);
  }

  lemma {:induction false} KeptSnoc(front: seq<Item>, x: Item, k: Key, w: Which)
    requires ValidItem(x)
    ensures var older := match KeyBefore(x, k) case None => None
                         case Some(k0) => Kept(front, k0, Spared(x, k, w), FileValue(front, k0));
      Kept(front + [x], k, w, FileValue(front + [x], k)) ==
      OverIf(if IsFileTag(x.e.tag) then Some(x) else None, k, w, older)
  {
    assert (front + [x])[..|front|] == front;
    FileValueSnoc(front, x, k);
    hide FileValue;
  }

  lemma {:induction false} NothingGrouped(xs: seq<Item>, k: Key)
    requires NoGroups(xs)
    ensures GroupValue(xs, k) == None && !Buried(xs, k)
  {
    if xs != [] {
      var front, x := xs[..|xs| - 1], xs[|xs| - 1];
      NothingGrouped(front, k);
      if KeyBefore(x, k).Some? {
        NothingGrouped(front, KeyBefore(x, k).value);
      }
    }
  }

  // Items without groups in front of xs have no part in what it revives.
  lemma {:induction false} RevivesAfter(ds: seq<Item>, xs: seq<Item>, k: Key)
    requires NoGroups(ds) && AllValid(xs)
    ensures GroupValue(ds + xs, k) == GroupValue(xs, k)
    ensures Buried(ds + xs, k) == Buried(xs, k)
    ensures Buried(xs, k) ==> DeletedLast(ds + xs, k) == DeletedLast(xs, k)
  {
    if xs == [] {
      assert ds + xs == ds;
      NothingGrouped(ds, k);
    } else {
      var front, x := xs[..|xs| - 1], xs[|xs| - 1];
      assert (ds + xs)[..|ds + xs| - 1] == ds + front;
      RevivesAfter(ds, front, k);
      if KeyBefore(x, k).Some? {
        RevivesAfter(ds, front, KeyBefore(x, k).value);
      }
    }
  }

  // ---- From a block and attributes to items -----------------------------------

  const FROM_MOVE := 0x101
  const FROM_USERATTRS := 0x102
  const TYPE_USERATTR := 0x300

  predicate IsFrom(typ: nat) {
    Type1(typ) == 0x100
  }

  function Plainly(e: Entry): Item {
    Item(e, false, false)
  }

  function DiskItems(disk: seq<Entry>): seq<Item> {
    if disk == [] then [] else [Plainly(disk[0])] + DiskItems(disk[1..])
  }

  // What a Move copies: the structs and user attributes of a file
  function Moved(xs: seq<Item>, fromId: nat, toId: nat): seq<Item> {
    if xs == [] then []
    else Moved(xs[..|xs| - 1], fromId, toId) + MovedOne(xs[|xs| - 1], fromId, toId)
  }

  function MovedOne(x: Item, fromId: nat, toId: nat): seq<Item> {
    if TYPE_STRUCT <= x.e.tag.typ < 0x400 && x.e.tag.id == fromId
    then [Item(x.e.(tag := x.e.tag.(id := toId)), true, true)] else []
  }

  function UserItems(id: nat, attrs: seq<(nat, seq<byte>)>): seq<Item> {
    if attrs == [] then []
    else [Item(Entry(Tag(TYPE_USERATTR + attrs[0].0, id, |attrs[0].1|), attrs[0].1), true, false)]
         + UserItems(id, attrs[1..])
  }

  function AttrItems(a: Attr): seq<Item> {
    match a
    case Noop => []
    case Plain(e) => [Plainly(e)]
    case Move(toId, fromId, src) => Moved(Collect(DiskItems(src)), fromId, toId)
    case UserAttrs(id, attrs) => UserItems(id, attrs)
  }

  function Flatten(attrs: seq<Attr>): seq<Item> {
    if attrs == [] then [] else AttrItems(attrs[0]) + Flatten(attrs[1..])
  }

  predicate ValidPlain(e: Entry) {
    ValidEntry(e) && e.tag.typ != FROM_NOOP && !IsFrom(e.tag.typ)
  }

  predicate ValidDisk(disk: seq<Entry>) {
    forall i :: 0 <= i < |disk| ==> ValidPlain(disk[i])
  }

  predicate ValidAttr(a: Attr) {
    match a
    case Noop => true
    case Plain(e) => ValidPlain(e)
    case Move(_, fromId, src) =>
      // a committed log ends with a checksum tag
      fromId < ID_NONE && ValidDisk(src) && src != [] && !IsFileTag(src[|src| - 1].tag)
    case UserAttrs(_, attrs) =>
      |attrs| < SIZE_DELETED && forall i :: 0 <= i < |attrs| ==> attrs[i].0 < 0x100 && |attrs[i].1| < SIZE_DELETED
  }

  // ---- The traversal over a block and attributes ---------------------------------

  // lfs_dir_traverse_filter on tags: t is seen after f.
  function FilterTag(f: Tag, t: Tag): Option<Tag> {
    // bit 0x100 of the later tag says how much of the type must agree
    var same := if t.typ / 0x100 % 2 == 1 then t.typ == f.typ else Type1(t.typ) == Type1(f.typ);
    if (same && t.id == f.id) || IsDelete(f) || (t.typ == TYPE_DELETE && t.id == f.id) then None
    else if IsSplice(t) && t.id <= f.id && f.id + Splice(t) >= 0 then Some(f.(id := f.id + Splice(t)))
    else Some(f)
  }

  // f is the tag the traversal carries for item x: its own, or that of its group.
  predicate Carries(f: Tag, x: Item) {
    && f.id == x.e.tag.id
    && (if x.grouped then IsFrom(f.typ) && !IsDelete(f) else f == x.e.tag)
  }

  lemma {:induction false} FilterTagStep(f: Tag, x: Item, y: Item)
    requires Carries(f, x) && IsFileTag(x.e.tag)
    requires ValidItem(y) && !y.silent && !IsFrom(y.e.tag.typ)
    ensures var g, z := FilterTag(f, y.e.tag), FilterStep(x, y);
      && (g.Some? <==> z.Some?)
      && (g.Some? ==> Carries(g.value, z.value) && g.value == f.(id := g.value.id) && z.value == WithId(x, g.value.id))
  {
  }

  predicate ValidAttrs(attrs: seq<Attr>) {
    forall i :: 0 <= i < |attrs| ==> ValidAttr(attrs[i])
  }

  // What is left to traverse
  function Rest(disk: seq<Entry>, k: nat, attrs: seq<Attr>, j: nat): seq<Item>
    requires k <= |disk| && j <= |attrs|
  {
    DiskItems(disk[k..]) + Flatten(attrs[j..])
  }

  // The next thing to traverse: the block first, then the attributes
  function Next(disk: seq<Entry>, k: nat, attrs: seq<Attr>, j: nat): Attr
    requires k < |disk| || (k == |disk| && j < |attrs|)
  {
    if k < |disk| then Plain(disk[k]) else attrs[j]
  }

  lemma RestNext(disk: seq<Entry>, k: nat, attrs: seq<Attr>, j: nat)
    requires ValidDisk(disk) && ValidAttrs(attrs) && j <= |attrs|
    requires k < |disk| || (k == |disk| && j < |attrs|)
    ensures Rest(disk, k, attrs, j) == AttrItems(Next(disk, k, attrs, j)) +
            if k < |disk| then Rest(disk, k + 1, attrs, j) else Rest(disk, k, attrs, j + 1)
    ensures ValidAttr(Next(disk, k, attrs, j))
  {
    if k < |disk| {
      assert disk[k..][1..] == disk[k + 1..];
    } else {
      assert disk[|disk|..] == [];
      assert attrs[j..][1..] == attrs[j + 1..];
    }
  }

  lemma RestEnd(disk: seq<Entry>, attrs: seq<Attr>)
    ensures Rest(disk, |disk|, attrs, |attrs|) == []
  {
    assert disk[|disk|..] == [] && attrs[|attrs|..] == [];
  }

  // Items a filter pass over y ignores
  lemma {:induction false} TrackSilent(y: Item, silent: seq<Item>, rest: seq<Item>)
    requires forall i :: 0 <= i < |silent| ==> silent[i].silent
    ensures Track(y, silent + rest) == Track(y, rest)
    decreases |silent|
  {
    if silent == [] {
      assert silent + rest == rest;
    } else {
      assert (silent + rest)[1..] == silent[1..] + rest;
      TrackSilent(y, silent[1..], rest);
    }
  }

  lemma {:induction false} TrackOne(y: Item, x: Item, rest: seq<Item>)
    ensures Track(y, [x] + rest) ==
            match FilterStep(y, x) case None => None case Some(z) => Track(z, rest)
  {
    assert ([x] + rest)[1..] == rest;
  }

  lemma {:induction false} MovedSilent(xs: seq<Item>, fromId: nat, toId: nat)
    ensures forall x :: x in Moved(xs, fromId, toId) ==>
              x.silent && x.grouped && x.e.tag.id == toId && TYPE_STRUCT <= x.e.tag.typ < 0x400
  {
    if xs != [] {
      MovedSilent(xs[..|xs| - 1], fromId, toId);
    }
  }

  function After(y: Option<Item>, rest: seq<Item>): Option<Item> {
    match y case None => None case Some(x) => Track(x, rest)
  }

  function Past(y: Option<Item>, e: Entry): Option<Item> {
    match y case None => None case Some(x) => FilterStep(x, Plainly(e))
  }

  lemma {:induction false} PassPlain(f: Tag, y: Option<Item>, e: Entry, rest: seq<Item>)
    requires ValidPlain(e)
    requires y.Some? ==> Carries(f, y.value) && IsFileTag(y.value.e.tag)
    ensures After(y, [Plainly(e)] + rest) == After(Past(y, e), rest)
    ensures var g, z := FilterTag(f, e.tag), Past(y, e);
      && (g.Some? ==> g.value == f.(id := g.value.id))
      && (y.Some? ==> (g.Some? <==> z.Some?))
      && (z.Some? ==> Carries(g.value, z.value) && z.value == WithId(y.value, g.value.id))
  {
    if y.Some? {
      TrackOne(y.value, Plainly(e), rest);
      FilterTagStep(f, y.value, Plainly(e));
    }
  }

  lemma {:induction false} PassMove(y: Option<Item>, a: Attr, rest: seq<Item>)
    requires a.Move?
    ensures After(y, AttrItems(a) + rest) == After(y, rest)
  {
    MovedSilent(Collect(DiskItems(a.src)), a.fromId, a.toId);
    if y.Some? {
      TrackSilent(y.value, AttrItems(a), rest);
    }
  }

  // The tag f carried for an item that is now y (None once superseded, and
  // the tag carried is then empty), having started as item x with tag `tag`.
  ghost predicate Carrying(f: Tag, y: Option<Item>, tag: Tag, x: Item) {
    match y
    case None => f.typ == FROM_NOOP
    case Some(z) => Carries(f, z) && f == tag.(id := f.id) && z == WithId(x, f.id)
  }

  // The inner pass of lfs_dir_traverse, with lfs_dir_traverse_filter as its
  // callback: the tag `tag` past everything that follows it.
  method Filter(tag: Tag, disk: seq<Entry>, k0: nat, attrs: seq<Attr>, j0: nat, ghost x: Item)
    returns (r: Option<Tag>)
    requires k0 <= |disk| && j0 <= |attrs| && (k0 == |disk| || j0 == 0)
    requires ValidDisk(disk) && ValidAttrs(attrs)
    requires Carries(tag, x) && IsFileTag(x.e.tag) && tag.typ != FROM_NOOP
    ensures var z := Track(x, Rest(disk, k0, attrs, j0));
      && (r.Some? <==> z.Some?)
      && (r.Some? ==> r.value == tag.(id := r.value.id) && z.value == WithId(x, r.value.id))
  {
    var f: Tag, k: nat, j: nat := tag, k0, j0;
    ghost var y := Some(x);
    ghost var z := Track(x, Rest(disk, k0, attrs, j0));
    while k < |disk| || j < |attrs|
      invariant k <= |disk| && j <= |attrs| && (k == |disk| || j == 0)
      invariant After(y, Rest(disk, k, attrs, j)) == z
      invariant Carrying(f, y, tag, x)
      decreases |disk| - k + |attrs| - j
    {
      RestNext(disk, k, attrs, j);
      var a := Next(disk, k, attrs, j);
      k, j := if k < |disk| then k + 1 else k, if k < |disk| then j else j + 1;
      var superseded;
      superseded, f, y := FilterAttr(f, a, tag, x, y, Rest(disk, k, attrs, j));
      if superseded {
        return None;
      }
    }
    RestEnd(disk, attrs);
    return if f.typ == FROM_NOOP then None else Some(f);
  }

  // One thing the filter sees
  method FilterAttr(f0: Tag, a: Attr, ghost tag: Tag, ghost x: Item, ghost y0: Option<Item>, ghost rest: seq<Item>)
    returns (superseded: bool, f: Tag, ghost y: Option<Item>)
    requires ValidAttr(a) && IsFileTag(x.e.tag) && tag.typ != FROM_NOOP
    requires Carrying(f0, y0, tag, x)
    ensures After(y, rest) == After(y0, AttrItems(a) + rest)
    ensures if superseded then y == None else Carrying(f, y, tag, x)
  {
    superseded, f, y := false, f0, y0;
    match a {
      case Noop =>
        assert AttrItems(a) + rest == rest;
      case Move(_, _, _) =>
        PassMove(y, a, rest);
      case Plain(e) =>
        PassPlain(f, y, e, rest);
        y := Past(y, e);
        var g := FilterTag(f, e.tag);
        if g == None {
          superseded := true;
        } else {
          f := g.value;
        }
      case UserAttrs(id, list) =>
        f, y := FilterUserAttrs(f, id, list, y, rest);
    }
  }

  // The loop over a list of user attributes.  It stops once the tag is
  // superseded, and the traversal then goes on with an empty tag.
  method FilterUserAttrs(tag: Tag, id: nat, list: seq<(nat, seq<byte>)>, ghost y0: Option<Item>, ghost rest: seq<Item>)
    returns (f: Tag, ghost y: Option<Item>)
    requires ValidAttr(UserAttrs(id, list))
    requires y0.Some? ==> Carries(tag, y0.value) && IsFileTag(y0.value.e.tag) && tag.typ != FROM_NOOP
    requires y0.None? ==> tag.typ == FROM_NOOP
    ensures After(y, rest) == After(y0, UserItems(id, list) + rest)
    ensures y.Some? ==> y0.Some? && Carries(f, y.value) && f == tag.(id := f.id) && y.value == WithId(y0.value, f.id)
    ensures y.None? ==> f.typ == FROM_NOOP
  {
    f, y := tag, y0;
    var i := 0;
    while i < |list|
      invariant i <= |list|
      invariant After(y, UserItems(id, list[i..]) + rest) == After(y0, UserItems(id, list) + rest)
      invariant y.Some? ==>
                y0.Some? && Carries(f, y.value) && f == tag.(id := f.id) && y.value == WithId(y0.value, f.id)
      invariant y.None? ==> f.typ == FROM_NOOP
    {
      var t := Tag(TYPE_USERATTR + list[i].0, id, |list[i].1|);
      ghost var item := Item(Entry(t, list[i].1), true, false);
      assert list[i..][1..] == list[i + 1..];
      assert UserItems(id, list[i..]) + rest == [item] + (UserItems(id, list[i + 1..]) + rest);
      if y.Some? {
        TrackOne(y.value, item, UserItems(id, list[i + 1..]) + rest);
        FilterTagStep(f, y.value, item);
        y := FilterStep(y.value, item);
      }
      var g := FilterTag(f, t);
      if g == None {
        f := Tag(FROM_NOOP, 0, 0);
        return;
      }
      f := g.value;
      i := i + 1;
    }
    assert UserItems(id, list[i..]) + rest == rest;
  }
}
