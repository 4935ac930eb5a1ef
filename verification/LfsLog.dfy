// The littlefs metadata log: tags, log entries and what a log means.
//
// A metadata block holds a log of tagged entries.  CREATE and DELETE tags
// renumber every other entry, so an entry's id is only meaningful together
// with the tags that follow it.  `Replay` is the reference meaning: it reads
// the log oldest first and keeps one value for each id and tag class.

module LfsLog {
  import opened Bytes
  import opened Options

  // A 32-bit tag split into its 11-bit type, 10-bit id and 10-bit size
  // fields (the valid bit is handled by LfsChain).
  datatype Tag = Tag(typ: nat, id: nat, size: nat)

  datatype Entry = Entry(tag: Tag, data: seq<byte>)

  const TYPE_NAME := 0x000
  const TYPE_STRUCT := 0x200
  const TYPE_SPLICE := 0x400
  const TYPE_CREATE := 0x401
  const TYPE_DELETE := 0x4ff
  const TYPE_CCRC := 0x500
  const TYPE_TAIL := 0x600
  const TYPE_MOVESTATE := 0x7ff
  const FROM_NOOP := 0x000
  const SIZE_DELETED := 0x3ff
  const ID_NONE := 0x3ff

  // lfs_tag_type1: the type with only its top three bits
  function Type1(typ: nat): nat {
    typ / 0x100 * 0x100
  }

  // Types with bit 0x100 are told apart by all their bits, the others only
  // by their top three.
  function ClassOf(typ: nat): nat {
    if typ / 0x100 % 2 == 1 then typ else Type1(typ)
  }

  predicate IsSplice(t: Tag) {
    Type1(t.typ) == TYPE_SPLICE
  }

  // Tags attached to a file id: names, structs, user attributes
  predicate IsFileTag(t: Tag) {
    t.typ < 0x400
  }

  predicate IsDelete(t: Tag) {
    t.size == SIZE_DELETED
  }

  // lfs_tag_splice: the low byte of the type as a signed number
  function Splice(t: Tag): int {
    var chunk := t.typ % 0x100;
    if chunk < 0x80 then chunk else chunk - 0x100
  }

  // The splices that occur in a log are CREATE and DELETE, both of size 0.
  predicate ValidEntry(e: Entry) {
    IsSplice(e.tag) ==>
      (e.tag.typ == TYPE_CREATE || e.tag.typ == TYPE_DELETE) && e.tag.size == 0
  }

  predicate ValidLog(log: seq<Entry>) {
    forall k :: 0 <= k < |log| ==> ValidEntry(log[k])
  }

  // ---- Meaning of a log ------------------------------------------------

  datatype Key = Key(id: nat, cls: nat)
  datatype Value = Value(typ: nat, data: seq<byte>)

  // `files` holds the entries of files, `globals` those of the whole pair
  // (tail, move state), `count` the number of files.
  datatype Dir = Dir(files: map<Key, Value>, globals: map<nat, Value>, count: int)

  function Get<K, V>(m: map<K, V>, k: K): Option<V> {
    if k in m then Some(m[k]) else None
  }

  function KeyOf(t: Tag): Key {
    Key(t.id, ClassOf(t.typ))
  }

  function ValueOf(e: Entry): Value {
    Value(e.tag.typ, e.data)
  }

  function InsertId(m: map<Key, Value>, id: nat): map<Key, Value> {
    map k | k in m :: (if k.id < id then k else Key(k.id + 1, k.cls)) := m[k]
  }

  function RemoveId(m: map<Key, Value>, id: nat): map<Key, Value> {
    map k | k in m && k.id != id :: (if k.id < id then k else Key(k.id - 1, k.cls)) := m[k]
  }

  function ApplyFiles(m: map<Key, Value>, e: Entry): map<Key, Value> {
    if e.tag.typ == TYPE_CREATE then InsertId(m, e.tag.id)
    else if e.tag.typ == TYPE_DELETE then RemoveId(m, e.tag.id)
    else if !IsFileTag(e.tag) then m
    else if IsDelete(e.tag) then m - {KeyOf(e.tag)}
    else m[KeyOf(e.tag) := ValueOf(e)]
  }

  function ApplyGlobals(m: map<nat, Value>, e: Entry): map<nat, Value> {
    if IsFileTag(e.tag) || IsSplice(e.tag) then m
    else if IsDelete(e.tag) then m - {ClassOf(e.tag.typ)}
    else m[ClassOf(e.tag.typ) := ValueOf(e)]
  }

  function ApplyCount(count: int, e: Entry): int {
    if IsSplice(e.tag) then count + Splice(e.tag)
    else if Type1(e.tag.typ) == TYPE_NAME && e.tag.id >= count then e.tag.id + 1
    else count
  }

  function Apply(d: Dir, e: Entry): Dir {
    Dir(ApplyFiles(d.files, e), ApplyGlobals(d.globals, e), ApplyCount(d.count, e))
  }

  const EMPTY_DIR := Dir(map[], map[], 0)

  function Replay(log: seq<Entry>): Dir {
    if log == [] then EMPTY_DIR
    else Apply(Replay(log[..|log| - 1]), log[|log| - 1])
  }

  // ---- One step of the meaning, seen from a key -------------------------

  lemma InsertIdGet(m: map<Key, Value>, id: nat, k: Key)
    ensures Get(InsertId(m, id), k) ==
            if k.id < id then Get(m, k)
            else if k.id == id then None
            else Get(m, Key(k.id - 1, k.cls))
  {
    var j := if k.id <= id then k else Key(k.id - 1, k.cls);
    assert k.id != id && j in m ==> InsertId(m, id)[k] == m[j];
  }

  lemma RemoveIdGet(m: map<Key, Value>, id: nat, k: Key)
    ensures Get(RemoveId(m, id), k) ==
            Get(m, if k.id < id then k else Key(k.id + 1, k.cls))
  {
    var j := if k.id < id then k else Key(k.id + 1, k.cls);
    assert j in m ==> RemoveId(m, id)[k] == m[j];
  }

  function GetAfter(m: map<Key, Value>, e: Entry, k: Key): Option<Value> {
    if e.tag.typ == TYPE_CREATE && e.tag.id <= k.id then
      if k.id == e.tag.id then None else Get(m, Key(k.id - 1, k.cls))
    else if e.tag.typ == TYPE_DELETE && e.tag.id <= k.id then
      Get(m, Key(k.id + 1, k.cls))
    else if IsFileTag(e.tag) && KeyOf(e.tag) == k then
      if IsDelete(e.tag) then None else Some(ValueOf(e))
    else Get(m, k)
  }

  lemma ApplyGet(m: map<Key, Value>, e: Entry, k: Key)
    ensures Get(ApplyFiles(m, e), k) == GetAfter(m, e, k)
  {
    if e.tag.typ == TYPE_CREATE {
      InsertIdGet(m, e.tag.id, k);
    } else if e.tag.typ == TYPE_DELETE {
      RemoveIdGet(m, e.tag.id, k);
    }
  }
}
