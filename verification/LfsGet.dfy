// lfs_dir_getslice: look an entry up by scanning the log newest first, with
// a running correction of the id, and its agreement with `Replay`.

module LfsGet {
  import opened Bytes
  import opened Options
  import opened LfsLog
  import opened LfsChain
  import Bits

  // What to look up: an entry of a file, or one of the whole pair
  datatype Query = OfFile(id: nat, cls: nat) | OfPair(cls: nat)

  predicate ValidQuery(q: Query) {
    match q
    case OfFile(_, cls) => cls < 0x400
    case OfPair(cls) => cls >= 0x400 && Type1(cls) != TYPE_SPLICE
  }

  datatype Found = Found(tag: Tag, buffer: seq<byte>)

  // The reference answer
  function Answer(d: Dir, q: Query): Option<Value> {
    match q
    case OfFile(id, cls) => Get(d.files, Key(id, cls))
    case OfPair(cls) => Get(d.globals, cls)
  }

  // Does this tag carry the class asked for?
  predicate Matches(t: Tag, q: Query) {
    match q
    case OfFile(id, cls) => ClassOf(t.typ) == cls && t.id == id
    case OfPair(cls) => ClassOf(t.typ) == cls
  }

  // ---- The newest-first reading, as a function --------------------------

  // One entry of the backward scan: an answer, or the query to carry on with
  datatype Step = Stop(answer: Option<Value>) | Continue(q: Query)

  function ScanStep(e: Entry, q: Query): Step {
    if q.OfFile? && IsSplice(e.tag) && e.tag.id <= q.id then
      if e.tag.typ == TYPE_CREATE && e.tag.id == q.id then Stop(None)
      else if q.id - Splice(e.tag) < 0 then Stop(None)
      else Continue(q.(id := q.id - Splice(e.tag)))
    else if Matches(e.tag, q) then
      Stop(if IsDelete(e.tag) then None else Some(ValueOf(e)))
    else
      Continue(q)
  }

  // The scan over the first k entries
  function Scan(log: seq<Entry>, k: nat, q: Query): Option<Value>
    requires k <= |log|
  {
    if k == 0 then None
    else
      match ScanStep(log[k - 1], q)
      case Stop(answer) => answer
      case Continue(q') => Scan(log, k - 1, q')
  }

  // Every step of the backward scan undoes one step of the replay.
  lemma {:induction false} StepUndoesApply(d: Dir, e: Entry, q: Query)
    requires ValidEntry(e) && ValidQuery(q)
    ensures Answer(Apply(d, e), q) ==
            match ScanStep(e, q)
            case Stop(answer) => answer
            case Continue(q') => Answer(d, q')
    ensures ScanStep(e, q).Continue? ==> ValidQuery(ScanStep(e, q).q)
  {
    if q.OfFile? {
      FileStep(d.files, e, q);
    }
  }

  lemma {:induction false} FileStep(m: map<Key, Value>, e: Entry, q: Query)
    requires ValidEntry(e) && ValidQuery(q) && q.OfFile?
    ensures Get(ApplyFiles(m, e), Key(q.id, q.cls)) ==
            match ScanStep(e, q)
            case Stop(answer) => answer
            case Continue(q') => Get(m, Key(q'.id, q'.cls))
  {
    ApplyGet(m, e, Key(q.id, q.cls));
    if IsSplice(e.tag) {
      assert e.tag.typ != TYPE_CREATE ==> Splice(e.tag) == -1;
    }
  }

  lemma {:induction false} ScanIsReplay(log: seq<Entry>, k: nat, q: Query)
    requires ValidLog(log) && ValidQuery(q) && k <= |log|
    ensures Scan(log, k, q) == Answer(Replay(log[..k]), q)
  {
    if k > 0 {
      assert log[..k][..k - 1] == log[..k - 1];
      StepUndoesApply(Replay(log[..k - 1]), log[k - 1], q);
      match ScanStep(log[k - 1], q)
      case Stop(_) =>
      case Continue(q') => ScanIsReplay(log, k - 1, q');
    }
  }

  // ---- The scan over a block image ---------------------------------------

  predicate Outcome(a: Option<Value>, q: Query, gsize: nat, r: Option<Found>) {
    match a
    case None => r == None
    case Some(v) =>
      && r.Some?
      && r.value.tag.typ == v.typ
      && r.value.tag.size == |v.data|
      && (q.OfFile? ==> r.value.tag.id == q.id)
      && r.value.buffer == Fit(v.data, gsize)
  }

  // The files as they will be once the pending move has been carried out
  function Visible(d: Dir, move: Option<nat>): Dir {
    if move.Some? then d.(files := RemoveId(d.files, move.value)) else d
  }

  // The query as it reads `gdiff` splices back in the log
  function Shifted(q: Query, gdiff: int): Query
    requires q.OfFile? ==> q.id - gdiff >= 0
  {
    if q.OfFile? then OfFile(q.id - gdiff, q.cls) else q
  }

  // What the code answers: the visible entry, except at the id of the pending
  // move itself, where it answers that there is none.
  function CodeAnswer(d: Dir, move: Option<nat>, q: Query): Option<Value> {
    if q.OfFile? && move == Some(q.id) then None else Answer(Visible(d, move), q)
  }

  // Without a pending move the code answers what the log means; with one it
  // does so exactly when the id asked for is not the id being moved, or the
  // file after that one has no such entry.
  lemma PendingMoveExact(d: Dir, move: Option<nat>, q: Query)
    ensures CodeAnswer(d, move, q) == Answer(Visible(d, move), q) <==>
            !(q.OfFile? && move == Some(q.id) && Key(q.id + 1, q.cls) in d.files)
  {
    if q.OfFile? && move.Some? {
      RemoveIdGet(d.files, move.value, Key(q.id, q.cls));
    }
  }

  // Two files, the first being moved away: the second will be file 0, but
  // asking for its name as file 0 finds nothing.
  lemma PendingMoveExample()
    ensures var d := Replay([Entry(Tag(0x001, 0, 1), [97]), Entry(Tag(0x001, 1, 1), [98])]);
      && Answer(Visible(d, Some(0)), OfFile(0, TYPE_NAME)) == Some(Value(0x001, [98]))
      && CodeAnswer(d, Some(0), OfFile(0, TYPE_NAME)) == None
  {
    var a, b := Entry(Tag(0x001, 0, 1), [97]), Entry(Tag(0x001, 1, 1), [98]);
    assert [a, b][..1] == [a] && [a][..0] == [];
    assert Replay([a]) == Apply(EMPTY_DIR, a);
    var d := Replay([a, b]);
    assert d == Apply(Replay([a]), b);
    assert d.files == map[Key(0, 0) := ValueOf(a), Key(1, 0) := ValueOf(b)];
    RemoveIdGet(d.files, 0, Key(0, 0));
  }

  lemma VisibleAnswer(d: Dir, move: Option<nat>, q: Query)
    requires q.OfFile? ==> move != Some(q.id)
    ensures Answer(Visible(d, move), q) ==
            Answer(d, Shifted(q, if move.Some? && q.OfFile? && move.value < q.id then -1 else 0))
  {
    if move.Some? && q.OfFile? {
      RemoveIdGet(d.files, move.value, Key(q.id, q.cls));
    }
  }

  // lfs_dir_getslice at slice offset 0.  `off` and `etag` are the pair's end
  // of log and last tag; `move` is the id of a pending move out of this pair.
  method GetSlice(img: seq<byte>, off: nat, etag: nat, move: Option<nat>, q: Query, gsize: nat,
                  ghost log: seq<Entry>)
    returns (r: Option<Found>)
    requires Holds(img, log) && ValidLog(log) && ValidQuery(q)
    requires off == Off(log, |log|) && etag == Ptag(log, |log|)
    ensures Outcome(CodeAnswer(Replay(log), move, q), q, gsize, r)
  {
    // A pending move hides its file from the start.
    var gdiff := 0;
    if move.Some? && q.OfFile? {
      if move.value == q.id {
        return None;
      } else if move.value < q.id {
        gdiff := gdiff - 1;
      }
    }
    VisibleAnswer(Replay(log), move, q);
    assert log[..|log|] == log;
    ScanIsReplay(log, |log|, Shifted(q, gdiff));
    r := ScanBackward(img, off, etag, gdiff, q, gsize, log);
  }

  // The loop of lfs_dir_getslice
  method ScanBackward(img: seq<byte>, end: nat, etag: nat, gdiff0: int, q: Query, gsize: nat, ghost log: seq<Entry>)
    returns (r: Option<Found>)
    requires Holds(img, log) && ValidLog(log) && ValidQuery(q)
    requires end == Off(log, |log|) && etag == Ptag(log, |log|)
    requires q.OfFile? ==> q.id - gdiff0 >= 0
    ensures Outcome(Scan(log, |log|, Shifted(q, gdiff0)), q, gsize, r)
  {
    var off: nat, ntag: nat, gdiff: int := end, etag, gdiff0;
    ghost var k: nat := |log|;
    ghost var answer := Scan(log, |log|, Shifted(q, gdiff0));
    var more := HasPrev(img, off, ntag, log, k);

    while more
      invariant k <= |log| && off == Off(log, k)
      invariant ntag == Ptag(log, k)
      invariant more <==> k > 0
      invariant q.OfFile? ==> q.id - gdiff >= 0
      invariant Scan(log, k, Shifted(q, gdiff)) == answer
      decreases k
    {
      var tag;
      tag, off, ntag := StepBack(img, off, ntag, log, k);
      k := k - 1;
      more := HasPrev(img, off, ntag, log, k);
      ghost var step := ScanStep(log[k], Shifted(q, gdiff));

      if q.OfFile? && IsSplice(tag) && tag.id <= q.id - gdiff {
        if tag == Tag(TYPE_CREATE, q.id - gdiff, 0) {
          // nothing older can belong to this file
          return None;
        }
        // older tags number this file differently
        assert ClassOf(tag.typ) != q.cls;
        gdiff := gdiff + Splice(tag);
        assert step == Continue(Shifted(q, gdiff));
      }

      if ClassOf(tag.typ) == q.cls && (q.OfFile? ==> tag.id == q.id - gdiff) {
        assert step == Stop(if IsDelete(tag) then None else Some(ValueOf(log[k])));
        if IsDelete(tag) {
          return None;
        }
        var data := ReadPayload(img, off, tag, log, k);
        r := Some(Found(tag.(id := if q.OfFile? then tag.id + gdiff else tag.id), Fit(data, gsize)));
        return;
      }
    }
    return None;
  }

  method ReadPayload(img: seq<byte>, off: nat, tag: Tag, ghost log: seq<Entry>, ghost k: nat)
    returns (data: seq<byte>)
    requires k < |log| && HoldsAt(img, log, k)
    requires off == Off(log, k) && tag == log[k].tag && !IsDelete(tag)
    ensures data == log[k].data && |data| == tag.size
  {
    data := img[off + 4..off + 4 + tag.size];
  }

  lemma AtEntry(img: seq<byte>, log: seq<Entry>, k: nat, ntag: nat)
    requires Holds(img, log) && k <= |log|
    requires ntag == Ptag(log, k)
    ensures Off(log, k) >= 4 + DSize(Unpack(ntag)) <==> k > 0
    ensures k > 0 ==> HoldsAt(img, log, k - 1) && Unpack(ntag) == log[k - 1].tag
  {
    if k > 0 {
      assert HoldsAt(img, log, k - 1);
      OffMonotone(log, 0, k - 1);
    }
    LastTag(log, k);
  }

  // Is there an entry in front of `off`?
  method HasPrev(img: seq<byte>, off: nat, ntag: nat, ghost log: seq<Entry>, ghost k: nat) returns (more: bool)
    requires Holds(img, log) && k <= |log|
    requires off == Off(log, k) && ntag == Ptag(log, k)
    ensures more <==> k > 0
  {
    AtEntry(img, log, k, ntag);
    more := off >= 4 + DSize(Unpack(ntag));
  }

  // Move back over one entry, decoding the tag in front of it.
  method StepBack(img: seq<byte>, off: nat, ntag: nat, ghost log: seq<Entry>, ghost k: nat)
    returns (tag: Tag, off': nat, ntag': nat)
    requires Holds(img, log) && 0 < k <= |log|
    requires off == Off(log, k) && ntag == Ptag(log, k)
    ensures tag == log[k - 1].tag && HoldsAt(img, log, k - 1)
    ensures off' == Off(log, k - 1) && off == off' + DSize(tag)
    ensures ntag' == Ptag(log, k - 1)
  {
    AtEntry(img, log, k, ntag);
    tag := Unpack(ntag);
    off' := off - DSize(tag);
    Unchain(img, log, k - 1);
    ntag' := Bits.Xor(Word(img, off'), ntag);
  }
}
