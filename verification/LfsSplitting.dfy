// Splitting a pair on the device: the new pairs are written from the last one
// to the first, and the rewrite of the old pair makes them part of the chain.

module LfsSplitting {
  import opened LfsLog
  import opened LfsTraverse
  import opened LfsCompact
  import opened LfsSplit

  // The tail of a pair: none, the next directory, or the rest of this one
  datatype Link = NoLink | Soft(to: nat) | Hard(to: nat)

  // A pair as it is fetched.  Rewriting one is atomic.
  datatype Node = Node(log: seq<Entry>, next: Link)

  type Pairs = map<nat, Node>

  // The pairs of a directory with their logs, and the tail of the last one
  datatype Chain = Chain(nodes: seq<nat>, logs: seq<seq<Entry>>, last: Link)

  function Before(id: nat, log: seq<Entry>, c: Chain): Chain {
    Chain([id] + c.nodes, [log] + c.logs, c.last)
  }

  function Behind(c: Chain): Chain
    requires c.nodes != [] && c.logs != []
  {
    Chain(c.nodes[1..], c.logs[1..], c.last)
  }

  // Following hard tails from the link passes this chain.
  ghost predicate ChainAt(disk: Pairs, link: Link, c: Chain)
    decreases |c.nodes|
  {
    if c.nodes == [] then c.logs == [] && link == c.last && !link.Hard?
    else
      && link == Hard(c.nodes[0]) && c.nodes[0] in disk && c.logs != []
      && disk[c.nodes[0]].log == c.logs[0]
      && ChainAt(disk, disk[c.nodes[0]].next, Behind(c))
  }

  // There is only one such chain.
  lemma {:induction false} ChainUnique(disk: Pairs, link: Link, c: Chain, c': Chain)
    requires ChainAt(disk, link, c) && ChainAt(disk, link, c')
    ensures c == c'
    decreases |c.nodes|
  {
    if c.nodes != [] {
      ChainUnique(disk, disk[c.nodes[0]].next, Behind(c), Behind(c'));
      assert c == Before(c.nodes[0], c.logs[0], Behind(c));
      assert c' == Before(c'.nodes[0], c'.logs[0], Behind(c'));
    }
  }

  // Whatever a pair outside the chain holds, the chain is the same.
  lemma {:induction false} ChainFrame(disk: Pairs, id: nat, node: Node, link: Link, c: Chain)
    requires ChainAt(disk, link, c) && id !in c.nodes
    ensures ChainAt(disk[id := node], link, c)
    decreases |c.nodes|
  {
    if c.nodes != [] {
      ChainFrame(disk, id, node, disk[c.nodes[0]].next, Behind(c));
    }
  }

  // A pair that is written in front of a chain makes it longer.
  lemma ChainMore(disk: Pairs, id: nat, node: Node, c: Chain)
    requires ChainAt(disk, node.next, c) && id !in c.nodes
    ensures ChainAt(disk[id := node], Hard(id), Before(id, node.log, c))
  {
    ChainFrame(disk, id, node, node.next, c);
    assert Behind(Before(id, node.log, c)) == c;
  }

  // The parts from i on in front of a chain, in pairs taken from the end of
  // `spare` towards its front
  function PartsBefore(parts: seq<Part>, i: nat, spare: seq<nat>, c: Chain): Chain
    requires 0 < i <= |parts| && |parts| - 1 <= |spare|
    decreases |parts| - i
  {
    if i == |parts| then c
    else Before(spare[|parts| - 1 - i], parts[i].log, PartsBefore(parts, i + 1, spare, c))
  }

  lemma {:induction false} PartsNodes(parts: seq<Part>, i: nat, spare: seq<nat>, c: Chain, id: nat)
    requires 0 < i <= |parts| && |parts| - 1 <= |spare|
    requires id !in c.nodes && forall j :: 0 <= j < |parts| - i ==> spare[j] != id
    ensures id !in PartsBefore(parts, i, spare, c).nodes
    decreases |parts| - i
  {
    if i < |parts| {
      PartsNodes(parts, i + 1, spare, c, id);
    }
  }

  // Pairs that can be allocated: distinct, and in neither chain
  ghost predicate Spare(spare: seq<nat>, a: seq<nat>, b: seq<nat>) {
    && (forall i {:trigger spare[i]} :: 0 <= i < |spare| ==> spare[i] !in a && spare[i] !in b)
    && (forall i, j :: 0 <= i < j < |spare| ==> spare[i] != spare[j])
  }

  class ChainDevice {
    var disk: Pairs
    // every state the pairs have gone through
    ghost var trace: seq<Pairs>

    method Write(id: nat, node: Node)
      modifies this
      ensures disk == old(disk)[id := node] && trace == old(trace) + [disk]
    {
      disk := disk[id := node];
      trace := trace + [disk];
    }

    // Every state from `start` on shows this chain from the head.
    ghost predicate Shows(start: nat, head: nat, c: Chain)
      reads this
    {
      forall k :: start <= k < |trace| ==> ChainAt(trace[k], Hard(head), c)
    }

    // One new pair, in front of the one that the next part is in
    method WritePart(head: nat, id: nat, node: Node, ghost start: nat, ghost was: Chain, ghost rest: Chain)
      requires ChainAt(disk, Hard(head), was) && ChainAt(disk, node.next, rest)
      requires id !in was.nodes && id !in rest.nodes && id != head && head in disk && Shows(start, head, was)
      requires start <= |trace|
      modifies this
      ensures ChainAt(disk, Hard(head), was) && ChainAt(disk, Hard(id), Before(id, node.log, rest))
      ensures head in disk && disk[head] == old(disk)[head] && old(trace) <= trace && Shows(start, head, was)
    {
      ChainFrame(disk, id, node, Hard(head), was);
      ChainMore(disk, id, node, rest);
      hide ChainAt, Before;
      Write(id, node);
    }

    // The parts but the first, last one first
    method WriteParts(head: nat, next: Link, parts: seq<Part>, spare: seq<nat>, ghost was: Chain, ghost rest: Chain)
      returns (link: Link)
      requires head in disk && parts != [] && |parts| - 1 <= |spare|
      requires ChainAt(disk, Hard(head), was) && ChainAt(disk, next, rest)
      requires Spare(spare, was.nodes, rest.nodes) && head !in spare
      modifies this
      ensures head in disk && disk[head] == old(disk)[head] && old(trace) <= trace && Shows(|old(trace)|, head, was)
      ensures ChainAt(disk, Hard(head), was) && ChainAt(disk, link, PartsBefore(parts, 1, spare, rest))
    {
      var i := |parts|;
      link := next;
      assert PartsBefore(parts, i, spare, rest) == rest;
      hide ChainAt, Before, PartsBefore, Spare;
      while i > 1
        invariant 1 <= i <= |parts| && head in disk && disk[head] == old(disk)[head]
        invariant ChainAt(disk, Hard(head), was) && ChainAt(disk, link, PartsBefore(parts, i, spare, rest))
        invariant old(trace) <= trace && Shows(|old(trace)|, head, was)
      {
        i := i - 1;
        var id := spare[|parts| - 1 - i];
        SpareNew(parts, i, spare, was.nodes, rest);
        WritePart(head, id, Node(parts[i].log, link), |old(trace)|, was, PartsBefore(parts, i + 1, spare, rest));
        link := Hard(id);
      }
    }

    // lfs_dir_splittingcompact on a pair that heads a chain.  `next` is its
    // tail after the commit, and leads to the chain `rest`.
    method Split(head: nat, next: Link, attrs: seq<Attr>, g: Geometry, count: nat, spare: seq<nat>,
                 ghost was: Chain, ghost rest: Chain)
      returns (parts: seq<Part>)
      requires head in disk && ValidDisk(disk[head].log) && ValidAttrs(attrs) && ValidGeometry(g)
      requires ChainAt(disk, Hard(head), was) && ChainAt(disk, next, rest) && head !in rest.nodes
      requires Spare(spare, was.nodes, rest.nodes) && head !in spare
      modifies this
      ensures parts != [] && |parts| - 1 <= |spare|
      ensures Covers(parts, 0, count) && Compacts(parts, old(disk)[head].log, attrs)
      ensures forall k {:trigger ChainGet(parts, k)} ::
                ChainGet(parts, k) == Get(Replay(Compacted(old(disk)[head].log, attrs, 0, count)).files, k)
      ensures var now := Before(head, parts[0].log, PartsBefore(parts, 1, spare, rest));
        && ChainAt(disk, Hard(head), now)
        && old(trace) <= trace
        && forall i :: |old(trace)| <= i < |trace| ==>
             ChainAt(trace[i], Hard(head), was) || ChainAt(trace[i], Hard(head), now)
    {
      parts := LfsSplit.SplittingCompact(disk[head].log, attrs, g, 0, count, |spare|);
      hide ChainAt, Before, PartsBefore, Covers, Compacts, ValidDisk, ValidAttrs, Spare, ChainGet, Enough, CutFirst;
      var link := WriteParts(head, next, parts, spare, was, rest);
      HeadNew(parts, spare, rest, head);
      ChainMore(disk, head, Node(parts[0].log, link), PartsBefore(parts, 1, spare, rest));
      Write(head, Node(parts[0].log, link));
    }
  }

  lemma SpareNew(parts: seq<Part>, i: nat, spare: seq<nat>, was: seq<nat>, rest: Chain)
    requires 0 < i < |parts| && |parts| - 1 <= |spare| && Spare(spare, was, rest.nodes)
    ensures var id := spare[|parts| - 1 - i];
      && id !in was && id !in PartsBefore(parts, i + 1, spare, rest).nodes
      && PartsBefore(parts, i, spare, rest) == Before(id, parts[i].log, PartsBefore(parts, i + 1, spare, rest))
  {
    PartsNodes(parts, i + 1, spare, rest, spare[|parts| - 1 - i]);
  }

  lemma HeadNew(parts: seq<Part>, spare: seq<nat>, rest: Chain, head: nat)
    requires parts != [] && |parts| - 1 <= |spare| && head !in rest.nodes && head !in spare
    ensures head !in PartsBefore(parts, 1, spare, rest).nodes
  {
    PartsNodes(parts, 1, spare, rest, head);
  }
}
