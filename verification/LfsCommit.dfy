// Commits to a metadata pair and what a power loss leaves of them.
//
// Assumption about the checksum: what a torn commit leaves in a block never
// validates.  It enters as the requirement that the junk behind the last
// complete tag holds no validating commit.

module LfsCommit {
  import opened Bytes
  import opened Options
  import opened LfsLog
  import opened LfsTraverse
  import opened LfsCompact
  import opened LfsMeaning
  import G = LfsGstate

  // One programmed tag with its payload; `ok` says of a checksum tag whether
  // the checksum matches what is in front of it.
  datatype Cell = Cell(e: Entry, ok: bool)

  // A block: its 32-bit revision and the tags programmed after it
  datatype Block = Block(rev: nat, cells: seq<Cell>)
  datatype Pair = Pair(b0: Block, b1: Block)

  const REV_MOD := 0x1_0000_0000

  // The revision of the block written next
  function NextRev(rev: nat): nat {
    (rev + 1) % REV_MOD
  }

  predicate IsCrc(t: Tag) {
    t.typ / 0x80 * 0x80 == TYPE_CCRC
  }

  // lfs_scmp(a, b) > 0: the 32-bit distance is positive
  predicate Newer(a: nat, b: nat) {
    0 < (a - b) % REV_MOD < REV_MOD / 2
  }

  // ---- What is committed ---------------------------------------------------

  // The number of cells up to the last validating checksum before the first
  // one that does not validate
  function CommitEnd(cells: seq<Cell>): (n: nat)
    ensures n <= |cells|
  {
    if cells == [] then 0
    else if IsCrc(cells[0].e.tag) && !cells[0].ok then 0
    else
      var rest := CommitEnd(cells[1..]);
      if rest > 0 || IsCrc(cells[0].e.tag) then rest + 1 else 0
  }

  function Log(cells: seq<Cell>): seq<Entry> {
    if cells == [] then [] else Log(cells[..|cells| - 1]) + [cells[|cells| - 1].e]
  }

  function Committed(cells: seq<Cell>): seq<Entry> {
    Log(cells[..CommitEnd(cells)])
  }

  predicate ValidBlock(b: Block) {
    b.rev < REV_MOD && ValidDisk(Committed(b.cells))
  }

  // ---- Meaning of a pair ------------------------------------------------------

  datatype Tail = Tail(hard: bool, pair: seq<byte>)
  const NO_TAIL := Tail(false, [])

  const NULL_BLOCK: seq<byte> := [0xff, 0xff, 0xff, 0xff]

  // lfs_pair_isnull
  predicate IsNullPair(pair: seq<byte>) {
    |pair| != 8 || pair[..4] == NULL_BLOCK || pair[4..] == NULL_BLOCK
  }

  function TailOf(globals: map<nat, Value>): Tail {
    match Get(globals, TYPE_TAIL)
    case None => NO_TAIL
    case Some(v) => if IsNullPair(v.data) then NO_TAIL else Tail(v.typ % 2 == 1, v.data)
  }

  function ShareOf(globals: map<nat, Value>): (g: G.GState)
    ensures G.Valid(g)
  {
    match Get(globals, TYPE_MOVESTATE)
    case None => G.ZERO
    case Some(v) => G.Decode(v.data)
  }

  datatype Meaning = Meaning(files: map<Key, Value>, count: int, tail: Tail, share: G.GState)

  function MeaningOf(d: Dir): (m: Meaning)
    ensures G.Valid(m.share)
  {
    Meaning(d.files, d.count, TailOf(d.globals), ShareOf(d.globals))
  }

  function LogMeaning(log: seq<Entry>): (m: Meaning)
    ensures G.Valid(m.share)
  {
    MeaningOf(Replay(log))
  }

  // ---- Fetching ------------------------------------------------------------------

  // The block lfs_dir_fetchmatch looks at first
  predicate SecondFirst(p: Pair) {
    Newer(p.b1.rev, p.b0.rev)
  }

  function First(p: Pair): Block {
    if SecondFirst(p) then p.b1 else p.b0
  }

  function Other(p: Pair): Block {
    if SecondFirst(p) then p.b0 else p.b1
  }

  function Fetched(p: Pair): Option<Meaning> {
    if CommitEnd(First(p).cells) > 0 then Some(LogMeaning(Committed(First(p).cells)))
    else if CommitEnd(Other(p).cells) > 0 then Some(LogMeaning(Committed(Other(p).cells)))
    else None
  }

  lemma {:induction false} CommitEndConcat(a: seq<Cell>, b: seq<Cell>)
    requires CommitEnd(a) == |a|
    ensures CommitEnd(a + b) == |a| + CommitEnd(b)
  {
    if a == [] {
      assert a + b == b;
    } else {
      assert (a + b)[1..] == a[1..] + b;
      CommitEndConcat(a[1..], b);
    }
  }

  predicate NoCrc(cells: seq<Cell>) {
    forall i :: 0 <= i < |cells| ==> !IsCrc(cells[i].e.tag)
  }

  // Tags without a checksum behind them commit nothing by themselves.
  lemma {:induction false} CommitEndTags(tags: seq<Cell>, rest: seq<Cell>)
    requires NoCrc(tags)
    ensures CommitEnd(tags + rest) == if CommitEnd(rest) > 0 then |tags| + CommitEnd(rest) else 0
  {
    if tags == [] {
      assert tags + rest == rest;
    } else {
      assert (tags + rest)[1..] == tags[1..] + rest;
      CommitEndTags(tags[1..], rest);
    }
  }

  // ---- Meaning, entry by entry ----------------------------------------------------

  function ApplyEntry(m: Meaning, e: Entry): Meaning {
    Meaning(
      ApplyFiles(m.files, e),
      ApplyCount(m.count, e),
      if Type1(e.tag.typ) != TYPE_TAIL then m.tail
      else if IsDelete(e.tag) || IsNullPair(e.data) then NO_TAIL
      else Tail(e.tag.typ % 2 == 1, e.data),
      if e.tag.typ != TYPE_MOVESTATE then m.share
      else if IsDelete(e.tag) then G.ZERO
      else G.Decode(e.data))
  }

  function ApplyAll(m: Meaning, es: seq<Entry>): Meaning {
    if es == [] then m else ApplyEntry(ApplyAll(m, es[..|es| - 1]), es[|es| - 1])
  }

  lemma {:induction false} MeaningStep(d: Dir, e: Entry)
    ensures MeaningOf(Apply(d, e)) == ApplyEntry(MeaningOf(d), e)
  {
    var t := e.tag.typ;
    if IsFileTag(e.tag) || IsSplice(e.tag) {
    } else {
      assert ClassOf(t) == TYPE_TAIL <==> Type1(t) == TYPE_TAIL;
      assert ClassOf(t) == TYPE_MOVESTATE <==> t == TYPE_MOVESTATE;
    }
  }

  lemma {:induction false} MeaningAppend(log: seq<Entry>, es: seq<Entry>)
    ensures LogMeaning(log + es) == ApplyAll(LogMeaning(log), es)
  {
    if es == [] {
      assert log + es == log;
    } else {
      var front, last := es[..|es| - 1], es[|es| - 1];
      assert (log + es)[..|log + es| - 1] == log + front;
      MeaningAppend(log, front);
      MeaningStep(Replay(log + front), last);
    }
  }

  lemma {:induction false} ApplyAllConcat(m: Meaning, a: seq<Entry>, b: seq<Entry>)
    ensures ApplyAll(m, a + b) == ApplyAll(ApplyAll(m, a), b)
  {
    if b == [] {
      assert a + b == a;
    } else {
      assert (a + b)[..|a + b| - 1] == a + b[..|b| - 1];
      ApplyAllConcat(m, a, b[..|b| - 1]);
    }
  }

  // Checksum tags (and the erase checksum next to them) mean nothing.
  predicate IsCheck(e: Entry) {
    Type1(e.tag.typ) == 0x500
  }

  lemma {:induction false} ChecksMeanNothing(m: Meaning, es: seq<Entry>)
    requires forall i :: 0 <= i < |es| ==> IsCheck(es[i])
    ensures ApplyAll(m, es) == m
  {
    if es != [] {
      ChecksMeanNothing(m, es[..|es| - 1]);
    }
  }

  // ---- What a commit writes ----------------------------------------------------------

  // A commit to a pair: the attributes, the change to the pair's share of the
  // global state, and the checksum tags that close it (an optional erase
  // checksum, the checksum itself, and padding).
  datatype Commit = Commit(attrs: seq<Attr>, delta: G.GState, fcrc: seq<Entry>, crc: Entry, pads: seq<Entry>)

  ghost predicate ValidCommit(c: Commit) {
    && ValidAttrs(c.attrs) && RevivesNone(c.attrs)
    && G.Valid(c.delta)
    && |c.fcrc| <= 1 && (forall i :: 0 <= i < |c.fcrc| ==> IsCheck(c.fcrc[i]) && !IsCrc(c.fcrc[i].tag))
    && IsCrc(c.crc.tag) && (forall i :: 0 <= i < |c.pads| ==> IsCrc(c.pads[i].tag))
    && (forall i :: 0 <= i < |c.attrs| && c.attrs[i].Plain? ==>
          c.attrs[i].e.tag.typ != TYPE_MOVESTATE && !IsCrc(c.attrs[i].e.tag))
  }

  function ShareEntry(g: G.GState): Entry
    requires G.Valid(g)
  {
    Entry(Tag(TYPE_MOVESTATE, ID_NONE, 12), G.Encode(g))
  }

  function TailEntry(t: Tail): Entry {
    Entry(Tag(TYPE_TAIL + if t.hard then 1 else 0, ID_NONE, 8), t.pair)
  }

  // What the commit is to mean
  function Intended(m: Meaning, c: Commit): Meaning {
    ApplyAll(m, AppendedLog(c.attrs)).(share := G.Xor(m.share, c.delta))
  }

  // The tags lfs_dir_relocatingcommit appends
  function AppendTags(m: Meaning, c: Commit): seq<Entry>
    requires G.Valid(m.share) && G.Valid(c.delta)
  {
    AppendedLog(c.attrs) + (if c.delta != G.ZERO then [ShareEntry(G.Xor(m.share, c.delta))] else []) + c.fcrc
  }

  // The tags lfs_dir_compact writes into a fresh block
  function CompactTags(log: seq<Entry>, c: Commit): seq<Entry>
    requires G.Valid(c.delta)
  {
    var m := Intended(LogMeaning(log), c);
    Compacted(log, c.attrs, 0, if m.count >= 0 then m.count else 0)
    + (if m.tail != NO_TAIL then [TailEntry(m.tail)] else [])
    + (if m.share != G.ZERO then [ShareEntry(m.share)] else [])
    + c.fcrc
  }

  // Every file has a name, and there is nothing past the last one.
  predicate WellNamed(m: Meaning) {
    && m.count >= 0
    && (forall k {:trigger k in m.files} :: k in m.files ==> k.id < m.count)
    && (m.count > 0 ==> Key(m.count - 1, TYPE_NAME) in m.files)
  }

  // ---- Both ways of committing mean the same --------------------------------------------

  // An ordinary entry: neither a checksum nor a share of the global state
  predicate Ordinary(e: Entry) {
    ValidPlain(e) && e.tag.typ != TYPE_MOVESTATE && !IsCrc(e.tag)
  }

  predicate AllOrdinary(es: seq<Entry>) {
    forall i :: 0 <= i < |es| ==> Ordinary(es[i])
  }

  lemma {:induction false} GroupOrdinary(g: seq<Item>)
    requires forall i :: 0 <= i < |g| ==> TYPE_STRUCT <= g[i].e.tag.typ < 0x400
    ensures AllOrdinary(Entries(g))
  {
    if g != [] {
      GroupOrdinary(g[..|g| - 1]);
    }
  }

  lemma {:induction false} UserItemsTypes(id: nat, list: seq<(nat, seq<byte>)>)
    requires ValidAttr(UserAttrs(id, list))
    ensures forall i :: 0 <= i < |UserItems(id, list)| ==> TYPE_STRUCT <= UserItems(id, list)[i].e.tag.typ < 0x400
  {
    if list != [] {
      UserItemsTypes(id, list[1..]);
    }
  }

  lemma {:induction false} AttrOrdinary(a: Attr)
    requires ValidAttr(a) && (a.Plain? ==> Ordinary(a.e))
    ensures AllOrdinary(Entries(AttrItems(a)))
  {
    match a {
      case Noop =>
      case Plain(e) =>
        var one := [Plainly(e)];
        assert one[..0] == [];
        assert Entries(one) == [e];
      case Move(toId, fromId, src) =>
        MovedSilent(Collect(DiskItems(src)), fromId, toId);
        GroupOrdinary(AttrItems(a));
      case UserAttrs(id, list) =>
        UserItemsTypes(id, list);
        GroupOrdinary(AttrItems(a));
    }
  }

  lemma {:induction false} AppendedOrdinary(attrs: seq<Attr>)
    requires ValidAttrs(attrs) && forall i :: 0 <= i < |attrs| && attrs[i].Plain? ==> Ordinary(attrs[i].e)
    ensures AllOrdinary(AppendedLog(attrs))
  {
    if attrs != [] {
      assert ValidAttr(attrs[0]);
      AttrOrdinary(attrs[0]);
      AppendedOrdinary(attrs[1..]);
      EntriesConcat(AttrItems(attrs[0]), Flatten(attrs[1..]));
    }
  }

  lemma {:induction false} OrdinaryKeepsShare(m: Meaning, es: seq<Entry>)
    requires AllOrdinary(es)
    ensures ApplyAll(m, es).share == m.share
  {
    if es != [] {
      OrdinaryKeepsShare(m, es[..|es| - 1]);
    }
  }

  lemma {:induction false} ApplyOne(m: Meaning, e: Entry)
    ensures ApplyAll(m, [e]) == ApplyEntry(m, e)
  {
    assert [e][..0] == [];
    assert ApplyAll(m, []) == m;
  }

  lemma ApplyShare(m: Meaning, g: G.GState)
    requires G.Valid(g)
    ensures ApplyAll(m, [ShareEntry(g)]) == m.(share := g)
  {
    ApplyOne(m, ShareEntry(g));
    G.DecodeEncode(g);
  }

  lemma CommitOrdinary(c: Commit)
    requires ValidCommit(c)
    ensures AllOrdinary(AppendedLog(c.attrs))
  {
    forall i | 0 <= i < |c.attrs| && c.attrs[i].Plain? ensures Ordinary(c.attrs[i].e) {
      assert ValidAttr(c.attrs[i]);
    }
    AppendedOrdinary(c.attrs);
  }

  // Appending the commit's tags to the log gives what was intended.
  lemma AppendMeans(log: seq<Entry>, c: Commit)
    requires ValidCommit(c)
    ensures LogMeaning(log + AppendTags(LogMeaning(log), c)) == Intended(LogMeaning(log), c)
  {
    var m := LogMeaning(log);
    var es := AppendedLog(c.attrs);
    var share := if c.delta != G.ZERO then [ShareEntry(G.Xor(m.share, c.delta))] else [];
    CommitOrdinary(c);
    OrdinaryKeepsShare(m, es);
    var after := ApplyAll(m, es);
    if c.delta != G.ZERO {
      ApplyShare(after, G.Xor(m.share, c.delta));
    } else {
      G.XorSelf(m.share);
    }
    ChecksMeanNothing(ApplyAll(after, share), c.fcrc);
    ApplyAllConcat(m, es, share);
    ApplyAllConcat(m, es + share, c.fcrc);
    MeaningAppend(log, es + share + c.fcrc);
  }

  lemma {:induction false} FileTagsOnly(log: seq<Entry>)
    requires OnlyFileTags(log)
    ensures Replay(log).globals == map[]
  {
    if log != [] {
      FileTagsOnly(log[..|log| - 1]);
    }
  }

  lemma SliceAll(m: map<Key, Value>, n: nat)
    requires forall k {:trigger k in m} :: k in m ==> k.id < n
    ensures Slice(m, 0, n) == m
  {
    var s := Slice(m, 0, n);
    forall k ensures Get(s, k) == Get(m, k) {
      SliceGet(m, 0, n, k);
    }
    MapsAgree(s, m);
  }

  // The compacted entries mean the intended files and their number.
  lemma CompactedMeans(log: seq<Entry>, attrs: seq<Attr>, m: Meaning)
    requires ValidDisk(log) && ValidAttrs(attrs) && RevivesNone(attrs)
    requires m.files == CommittedFiles(log, attrs) && WellNamed(m)
    ensures LogMeaning(Compacted(log, attrs, 0, m.count)) == Meaning(m.files, m.count, NO_TAIL, G.ZERO)
  {
    var out := Compacted(log, attrs, 0, m.count);
    CompactionPreserves(log, attrs, 0, m.count);
    SliceAll(m.files, m.count);
    FileTagsOnly(out);
    if m.count > 0 {
      CompactionCount(log, attrs, 0, m.count);
    } else {
      CountOfFileTags(out, 0);
    }
  }

  predicate ValidTail(t: Tail) {
    t == NO_TAIL || !IsNullPair(t.pair)
  }

  lemma ApplyTail(m: Meaning, t: Tail)
    requires ValidTail(t) && m.tail == NO_TAIL
    ensures ApplyAll(m, if t != NO_TAIL then [TailEntry(t)] else []) == m.(tail := t)
  {
    if t != NO_TAIL {
      ApplyOne(m, TailEntry(t));
    }
  }

  lemma {:induction false} TailStaysValid(m: Meaning, es: seq<Entry>)
    requires ValidTail(m.tail)
    ensures ValidTail(ApplyAll(m, es).tail)
  {
    if es != [] {
      TailStaysValid(m, es[..|es| - 1]);
    }
  }

  // Rewriting the log by compaction gives what was intended, too.
  lemma CompactMeans(log: seq<Entry>, c: Commit)
    requires ValidDisk(log) && ValidCommit(c)
    requires WellNamed(Intended(LogMeaning(log), c))
    ensures LogMeaning(CompactTags(log, c)) == Intended(LogMeaning(log), c)
  {
    var m := Intended(LogMeaning(log), c);
    var es := AppendedLog(c.attrs);
    MeaningAppend(log, es);
    TailStaysValid(LogMeaning(log), es);
    CompactedMeans(log, c.attrs, m);
    var out := Compacted(log, c.attrs, 0, m.count);
    var tail := if m.tail != NO_TAIL then [TailEntry(m.tail)] else [];
    var share := if m.share != G.ZERO then [ShareEntry(m.share)] else [];
    var m1 := LogMeaning(out);
    ApplyTail(m1, m.tail);
    var m2 := m1.(tail := m.tail);
    if m.share != G.ZERO {
      ApplyShare(m2, m.share);
    }
    ChecksMeanNothing(m, c.fcrc);
    MeaningAppend(out, tail);
    MeaningAppend(out + tail, share);
    MeaningAppend(out + tail + share, c.fcrc);
  }

  // ---- The tail is carried over ----------------------------------------------------------

  // A pair of block numbers, neither of them the null block
  predicate IsPair(pair: seq<byte>) {
    |pair| == 8 && pair[..4] != [0xff, 0xff, 0xff, 0xff] && pair[4..] != [0xff, 0xff, 0xff, 0xff]
  }

  lemma TailIs(log: seq<Entry>, pair: seq<byte>, hard: bool)
    requires IsPair(pair)
    ensures LogMeaning(log).tail == Tail(hard, pair) <==>
            var v := Get(Replay(log).globals, TYPE_TAIL);
            v.Some? && v.value.data == pair && (v.value.typ % 2 == 1 <==> hard)
  {
    assert NULL_BLOCK == [0xff, 0xff, 0xff, 0xff];
  }

  // A compacted log has the tail that the commit leaves, byte for byte.
  lemma CompactTail(log: seq<Entry>, c: Commit, v: Value)
    requires ValidDisk(log) && ValidCommit(c) && WellNamed(Intended(LogMeaning(log), c))
    requires Get(Replay(log + AppendedLog(c.attrs)).globals, TYPE_TAIL) == Some(v) && IsPair(v.data)
    ensures var out := Get(Replay(CompactTags(log, c)).globals, TYPE_TAIL);
      out.Some? && out.value.data == v.data && out.value.typ % 2 == v.typ % 2
  {
    var hard := v.typ % 2 == 1;
    TailIs(log + AppendedLog(c.attrs), v.data, hard);
    TailIs(CompactTags(log, c), v.data, hard);
    hide CompactTags, LogMeaning, ApplyAll, Replay, ValidDisk, ValidCommit, IsPair;
    MeaningAppend(log, AppendedLog(c.attrs));
    CompactMeans(log, c);
  }
}
