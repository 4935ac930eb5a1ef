// The lookahead allocator: a bitmap of the blocks in use in a window that
// moves around the device, and a checkpoint that bounds how far it may move.

module LfsAlloc {
  import opened Bits
  import opened Options
  import opened Sequences

  // Absolute position x on a device of n blocks, walked around and around
  function At(x: nat, n: nat): (b: nat)
    requires n > 0
    ensures b < n
  {
    x % n
  }

  lemma Multiples(n: nat, d: int)
    ensures n * d <= 0 || n * d >= n
  {
    if d >= 1 {
      MulAtLeast(n, d);
    } else {
      MulMonotone(n, -d);
    }
  }

  lemma MulMonotone(n: nat, d: int)
    requires d >= 0
    ensures n * d >= 0
    ensures n * -d == -(n * d)
  {
  }

  // Fewer than n steps do not lead back to the same block.
  lemma AtDistinct(x: nat, y: nat, n: nat)
    requires n > 0 && x < y < x + n
    ensures At(x, n) != At(y, n)
  {
    var d := y / n - x / n;
    assert n * d == (y - y % n) - (x - x % n);
    Multiples(n, d);
  }

  lemma AtUnique(x: nat, y: nat, n: nat)
    requires n > 0 && x < y + n && y < x + n && At(x, n) == At(y, n)
    ensures x == y
  {
    if x < y {
      AtDistinct(x, y, n);
    } else if y < x {
      AtDistinct(y, x, n);
    }
  }

  lemma AtShift(x: nat, k: nat, n: nat)
    requires n > 0
    ensures (At(x, n) + k) % n == At(x + k, n)
  {
    var q, r := (x % n + k) / n, (x % n + k) % n;
    assert x + k == n * (x / n) + (x % n + k);
    assert x % n + k == n * q + r;
    assert n * (x / n) + n * q == n * (x / n + q);
    Quotient(x + k, n, x / n + q, r);
  }

  lemma Quotient(a: nat, n: nat, q: nat, r: nat)
    requires n > 0 && r < n && a == n * q + r
    ensures a % n == r
  {
    DivUnique(a, n, q, r);
  }

  // The first position from origin on that is block b: the offset computed
  // for each block that is in use
  function OffsetOf(origin: nat, b: nat, n: nat): (off: nat)
    requires n > 0 && b < n
    ensures off < n && At(origin + off, n) == b
  {
    var s := At(origin, n);
    var off := (b - s + n) % n;
    OffsetOfIs(origin, b, n);
    off
  }

  lemma OffsetOfIs(origin: nat, b: nat, n: nat)
    requires n > 0 && b < n
    ensures var off := (b - At(origin, n) + n) % n; 0 <= off < n && At(origin + off, n) == b
  {
    var s := At(origin, n);
    var off := (b - s + n) % n;
    if b >= s {
      Quotient(b - s + n, n, 1, b - s);
      AtShift(origin, b - s, n);
      Quotient(b, n, 0, b);
    } else {
      Quotient(b - s + n, n, 0, b - s + n);
      AtShift(origin, b - s + n, n);
      Quotient(b + n, n, 1, b);
    }
  }

  lemma OffsetUnique(origin: nat, k: nat, b: nat, n: nat)
    requires n > 0 && k < n && At(origin + k, n) == b
    ensures b < n && OffsetOf(origin, b, n) == k
  {
    AtUnique(origin + k, origin + OffsetOf(origin, b, n), n);
  }

  // ---- The bitmap ---------------------------------------------------------

  predicate Bit(b: bv8, k: nat)
    requires k < 8
  {
    b & (1 << k) != 0
  }

  function WithBit(b: bv8, k: nat): (r: bv8)
    requires k < 8
    ensures forall j: nat | j < 8 :: Bit(r, j) <==> j == k || Bit(b, j)
  {
    b | (1 << k)
  }

  predicate Marked(buffer: seq<bv8>, k: nat)
    requires k < 8 * |buffer|
  {
    Bit(buffer[k / 8], k % 8)
  }

  // The window starting at position origin tells from offset k on which blocks
  // are claimed.
  ghost predicate Accurate(buffer: seq<bv8>, origin: nat, k: nat, size: nat, n: nat, claimed: set<nat>) {
    n > 0 && size <= 8 * |buffer| && size <= n &&
    forall j: nat {:trigger Marked(buffer, j)} :: k <= j < size ==>
      (Marked(buffer, j) <==> At(origin + j, n) in claimed)
  }

  // All positions passed since the mark are claimed.
  ghost predicate Passed(mark: nat, cursor: nat, n: nat, claimed: set<nat>) {
    n > 0 && forall p: nat {:trigger At(p, n)} :: mark <= p < cursor ==> At(p, n) in claimed
  }

  // All of these blocks come within `steps` steps after the mark.
  ghost predicate Within(blocks: set<nat>, mark: nat, steps: int, n: nat) {
    n > 0 && forall b {:trigger b in blocks} :: b in blocks ==> b < n && OffsetOf(mark, b, n) < steps
  }

  // The blocks marked from offset k on
  ghost function LeftMarked(buffer: seq<bv8>, origin: nat, k: nat, size: nat, n: nat): (s: set<nat>)
    requires n > 0 && size <= 8 * |buffer|
  {
    set b: nat | b < n && k <= OffsetOf(origin, b, n) < size && Marked(buffer, OffsetOf(origin, b, n))
  }

  lemma LeftMarkedAccurate(buffer: seq<bv8>, origin: nat, k: nat, size: nat, n: nat, claimed: set<nat>, inUse: set<nat>,
                           left: set<nat>)
    requires Accurate(buffer, origin, k, size, n, claimed) && inUse <= claimed
    requires left == LeftMarked(buffer, origin, k, size, n)
    ensures Accurate(buffer, origin, k, size, n, inUse + left)
  {
    hide At, OffsetOf, Marked;
    forall j: nat | k <= j < size
      ensures Marked(buffer, j) <==> At(origin + j, n) in inUse + left
    {
      OffsetUnique(origin, j, At(origin + j, n), n);
    }
  }

  lemma LeftMarkedWithin(buffer: seq<bv8>, origin: nat, k: nat, size: nat, n: nat, left: set<nat>)
    requires n > 0 && k <= size <= 8 * |buffer| && size <= n
    requires left == LeftMarked(buffer, origin, k, size, n)
    ensures Within(left, origin + k, size - k, n)
  {
    hide At, OffsetOf, Marked;
    forall b | b in left
      ensures b < n && OffsetOf(origin + k, b, n) < size - k
    {
      var off := OffsetOf(origin, b, n);
      assert At(origin + off, n) == b;
      OffsetUnique(origin + k, off - k, b, n);
    }
  }

  // ---- The allocator ------------------------------------------------------

  class Lookahead {
    const blockCount: nat
    const buffer: array<bv8>
    var start: nat
    var size: nat
    var next: nat
    var ckpoint: nat

    // The absolute positions where the window starts and where the cursor was
    // at the last checkpoint
    ghost var origin: nat
    ghost var mark: nat
    // The blocks that must not be handed out, those handed out since the
    // checkpoint, and those that the window still marked at the checkpoint
    ghost var live: set<nat>
    ghost var taken: set<nat>
    ghost var stale: set<nat>

    ghost predicate Shape()
      reads this
    {
      && blockCount > 0 && buffer.Length > 0
      && start == At(origin, blockCount)
      && next <= size <= 8 * buffer.Length && size <= blockCount
      && size - next <= ckpoint <= blockCount
      && origin + next - mark == blockCount - ckpoint
    }

    ghost predicate Valid()
      reads this, buffer
    {
      && Shape()
      && Accurate(buffer[..], origin, next, size, blockCount, live + stale)
      && Passed(mark, origin + next, blockCount, live + stale)
      && taken <= live && Within(taken, mark, blockCount - ckpoint, blockCount)
      && Within(stale, mark, origin + size - mark, blockCount)
    }

    // lfs_alloc_drop, at mount
    constructor (blockCount: nat, lookaheadSize: nat, ghost inUse: set<nat>)
      requires blockCount > 0 && lookaheadSize > 0
      ensures Valid() && fresh(buffer) && this.blockCount == blockCount && buffer.Length == lookaheadSize
      ensures live == inUse && taken == {} && stale == {}
      ensures origin == mark == next == size == 0 && ckpoint == blockCount
    {
      this.blockCount, this.buffer := blockCount, new bv8[lookaheadSize](_ => 0);
      start, size, next, ckpoint := 0, 0, 0, blockCount;
      origin, mark, live, taken, stale := 0, 0, inUse, {}, {};
    }

    // lfs_alloc_ckpoint: all blocks still needed are found by the traversal.
    method Checkpoint(ghost inUse: set<nat>)
      requires Valid() && inUse <= live
      modifies this`ckpoint, this`mark, this`live, this`taken, this`stale
      ensures Valid() && live == inUse && taken == {}
      ensures stale == LeftMarked(buffer[..], origin, next, size, blockCount)
    {
      hide Accurate, Passed, LeftMarked, At;
      ghost var left := LeftMarked(buffer[..], origin, next, size, blockCount);
      LeftMarkedAccurate(buffer[..], origin, next, size, blockCount, live + stale, inUse, left);
      LeftMarkedWithin(buffer[..], origin, next, size, blockCount, left);
      NothingPassed(origin + next, blockCount, inUse + left);
      ckpoint := blockCount;
      mark, live, taken, stale := origin + next, inUse, {}, left;
    }

    // lfs_alloc_lookahead: mark a block the traversal reports.
    method MarkUsed(b: nat)
      requires Shape() && b < blockCount
      modifies buffer
      ensures forall j: nat {:trigger Marked(buffer[..], j)} :: j < size ==>
                (Marked(buffer[..], j) <==> Marked(old(buffer[..]), j) || j == OffsetOf(origin, b, blockCount))
    {
      hide At, Marked, WithBit;
      var off := WindowOffset(origin, start, b, blockCount);
      if off < size {
        ghost var was := buffer[..];
        buffer[off / 8] := WithBit(buffer[off / 8], off % 8);
        MarkedUpdate(was, off, buffer[..]);
      }
    }

    // Find the blocks in use from the tree.
    method FillWindow(inUse: seq<nat>)
      requires Shape()
      requires forall b {:trigger b in inUse} :: b in inUse ==> b < blockCount
      modifies buffer
      ensures MarksExactly(buffer[..], origin, size, blockCount, inUse)
    {
      hide OffsetOf, At;
      forall i | 0 <= i < buffer.Length {
        buffer[i] := 0;
      }
      var i: nat := 0;
      while i < |inUse|
        invariant i <= |inUse|
        invariant MarksExactly(buffer[..], origin, size, blockCount, inUse[..i])
      {
        ghost var was := buffer[..];
        assert inUse[i] in inUse;
        MarkUsed(inUse[i]);
        MarksOneMore(was, buffer[..], origin, size, blockCount, inUse, i);
        i := i + 1;
      }
      assert inUse[..i] == inUse;
    }

    // lfs_alloc_scan
    method Scan(inUse: seq<nat>)
      requires Valid() && next == size && ckpoint > 0
      requires forall b {:trigger b in inUse} :: b in inUse ==> b < blockCount
      requires live == Elements(inUse) + taken
      modifies this`start, this`next, this`size, this`origin, buffer
      ensures Valid() && next == 0 && size > 0 && origin == old(origin + next)
      ensures size == if 8 * buffer.Length < ckpoint then 8 * buffer.Length else ckpoint
    {
      hide Accurate, Passed, Within, OffsetOf, At, Elements;
      start := Wrap(origin, start, next, blockCount);
      origin := origin + next;
      next := 0;
      size := if 8 * buffer.Length < ckpoint then 8 * buffer.Length else ckpoint;
      FillWindow(inUse);
      ScanAccurate(buffer[..], origin, size, blockCount, inUse, taken, stale, mark, ckpoint);
      StillWithin(stale, mark, old(origin + size) - mark, origin + size - mark, blockCount);
      assert Elements(inUse) + taken + stale == live + stale;
    }

    // Pass a block that is claimed.
    method Advance()
      requires Valid() && next < size && At(origin + next, blockCount) in live + stale
      modifies this`next, this`ckpoint
      ensures Valid() && next == old(next) + 1 && ckpoint == old(ckpoint) - 1
    {
      hide Accurate, Passed, Within, At;
      AccurateIs(buffer[..], origin, next, size, blockCount, live + stale);
      PassOne(buffer[..], origin, next, size, blockCount, mark, live + stale);
      StillWithin(taken, mark, blockCount - ckpoint, blockCount - (ckpoint - 1), blockCount);
      next := next + 1;
      ckpoint := ckpoint - 1;
    }

    // Hand out the block at the cursor.
    method Take() returns (b: nat)
      requires Valid() && next < size && !Marked(buffer[..], next)
      modifies this`next, this`ckpoint, this`live, this`taken
      ensures Valid() && next == old(next) + 1 && ckpoint == old(ckpoint) - 1
      ensures b < blockCount && b !in old(live + stale) && live == old(live) + {b} && taken == old(taken) + {b}
    {
      hide Accurate, Passed, Within, At, Marked;
      b := Wrap(origin, start, next, blockCount);
      TakeOne(buffer[..], origin, next, size, blockCount, mark, live + stale, b);
      PassOne(buffer[..], origin, next, size, blockCount, mark, live + stale + {b});
      TakenWithin(taken, mark, origin + next - mark, blockCount, b);
      live, taken := live + {b}, taken + {b};
      next := next + 1;
      ckpoint := ckpoint - 1;
      assert live + stale == old(live + stale) + {b};
    }

    // The test of one bit of the window
    method Free(k: nat) returns (free: bool)
      requires k < 8 * buffer.Length
      ensures free <==> !Marked(buffer[..], k)
    {
      free := !Bit(buffer[k / 8], k % 8);
    }

    // Move on to the next free block of the window, or to its end.
    method SkipUsed()
      requires Valid()
      modifies this`next, this`ckpoint
      ensures Valid() && (next < size ==> !Marked(buffer[..], next))
      ensures next >= old(next) && ckpoint == old(ckpoint) - (next - old(next))
    {
      hide Passed, Within, At, Marked;
      while next < size
        invariant Valid() && next >= old(next) && ckpoint == old(ckpoint) - (next - old(next))
        decreases size - next
      {
        var free := Free(next);
        if free {
          return;
        }
        Advance();
      }
    }

    // lfs_alloc: `inUse` is what a traversal of the filesystem reports now.
    method Alloc(inUse: seq<nat>) returns (r: Option<nat>)
      requires Valid() && live == Elements(inUse) + taken
      requires forall b {:trigger b in inUse} :: b in inUse ==> b < blockCount
      modifies this`start, this`next, this`size, this`ckpoint, this`origin, this`live, this`taken, buffer
      ensures Valid()
      ensures r.Some? ==> r.value < blockCount && r.value !in old(live + stale)
                          && live == old(live) + {r.value} && taken == old(taken) + {r.value} && ckpoint < old(ckpoint)
      ensures r.None? ==> live == old(live) && taken == old(taken)
                          && ckpoint == 0 && forall b: nat {:trigger b in live} :: b < blockCount ==> b in live + stale
      ensures r.None? <==> forall b: nat :: b < blockCount ==> b in old(live + stale)
      ensures r.Some? && next < size ==> !Marked(buffer[..], next)
      ensures r.Some? && old(next == size && ckpoint == blockCount) && blockCount <= 8 * buffer.Length ==>
                origin == old(origin + next) && size == blockCount
    {
      hide Accurate, Passed, Within, At, Marked, Elements;
      // A window over the whole device is filled once.
      ghost var whole := next == size && ckpoint == blockCount <= 8 * buffer.Length;
      ghost var filled := false;
      while true
        invariant Valid() && live == old(live) && taken == old(taken) && ckpoint <= old(ckpoint)
        invariant whole && !filled ==> next == size && origin + next == old(origin + next) && ckpoint == blockCount
        invariant whole && filled ==> origin == old(origin + next) && size == blockCount && ckpoint == size - next
        decreases ckpoint, if next < size then 0 else 1
      {
        SkipUsed();
        if next < size {
          var b := Take();
          assert b !in old(live + stale);
          SkipUsed();
          return Some(b);
        }
        if ckpoint == 0 {
          AllClaimed(mark, blockCount, live + stale);
          assert live + stale == old(live + stale);
          return None;
        }
        Scan(inUse);
        filled := true;
      }
    }

    // The retry loop of lfs_ctz_extend: a block that turns out bad while it is
    // erased or programmed is left alone, and another one allocated.
    method AllocGood(inUse: seq<nat>, bad: set<nat>) returns (r: Option<nat>)
      requires Valid() && live == Elements(inUse) + taken
      requires forall b {:trigger b in inUse} :: b in inUse ==> b < blockCount
      modifies this`start, this`next, this`size, this`ckpoint, this`origin, this`live, this`taken, buffer
      ensures Valid() && live - old(live) <= bad + (if r.Some? then {r.value} else {}) && old(live) <= live
      ensures r.Some? ==> r.value < blockCount && r.value !in bad && r.value !in old(live + stale) && r.value in live
      ensures r.None? <==> forall b: nat :: b < blockCount && b !in bad ==> b in old(live + stale)
    {
      hide Accurate, Passed, Within, At, Marked, Elements, Shape;
      while true
        invariant Valid() && live == Elements(inUse) + taken
        invariant old(live) <= live <= old(live) + bad
        decreases ckpoint
      {
        r := Alloc(inUse);
        if r.None? {
          assert forall b: nat {:trigger b in live} :: b < blockCount ==> b in live + stale;
          return;
        }
        if r.value !in bad {
          return;
        }
      }
    }
  }

  // When lfs_alloc reports a full disk there is a free block after all if and
  // only if the window still marked, at the checkpoint, a block that is not live.
  lemma FullReportExact(live: set<nat>, stale: set<nat>, n: nat)
    requires forall b: nat :: b < n ==> b in live + stale
    requires forall b {:trigger b in stale} :: b in stale ==> b < n
    ensures (exists b: nat :: b < n && b !in live) <==> !(stale <= live)
  {
    if b: nat :| b < n && b !in live {
      assert b in live + stale;
    }
  }

  // Four blocks: 0 and 3 were in use at the scan, 1 was handed out, the window
  // stands at 2.  Now block 3 is freed, and a checkpoint made.
  method FreedButFull() returns (a: Lookahead, first: Option<nat>, second: Option<nat>)
    ensures a.Valid() && a.blockCount == 4 && 3 !in a.live
    ensures first == Some(2) && second == None
  {
    a := OneFreed();
    first := LastTaken(a);
    hide Lookahead.Valid;
    assert Elements([0, 1]) == {0, 1};
    assert a.live + a.stale == {0, 1, 2, 3};
    second := a.Alloc([0, 1]);
  }

  method LastTaken(a: Lookahead) returns (r: Option<nat>)
    requires a.Valid() && a.blockCount == 4 && a.live == {0, 1} && a.taken == {} && a.stale == {3}
    modifies a, a.buffer
    ensures a.Valid() && r == Some(2) && a.live == {0, 1, 2} && a.taken == {2} && a.stale == {3}
  {
    hide Lookahead.Valid;
    assert Elements([0, 1]) == {0, 1};
    assert 2 !in a.live + a.stale;
    r := a.Alloc([0, 1]);
  }

  method OneFreed() returns (a: Lookahead)
    ensures fresh(a) && fresh(a.buffer) && a.Valid() && a.blockCount == 4
    ensures a.live == {0, 1} && a.taken == {} && a.stale == {3}
  {
    a := new Lookahead(4, 1, {0, 3});
    ghost var inUse := Elements([0, 3]);
    assert inUse == {0, 3};
    hide Elements;
    assert 1 !in a.live + a.stale;
    var r := a.Alloc([0, 3]);
    assert r.Some? && a.live == a.live + a.stale == {0, 3, r.value};
    OneHandedOut(a.buffer[..], a.next, r.value);
    hide Lookahead.Valid, LeftMarked;
    a.Checkpoint({0, 1});
  }

  // With 0 and 3 in use, a window over four blocks hands out 1 and stops at 2.
  lemma OneHandedOut(buffer: seq<bv8>, next: nat, b: nat)
    requires Accurate(buffer, 0, next, 4, 4, {0, 3, b}) && Passed(0, next, 4, {0, 3, b}) && Within({b}, 0, next, 4)
    requires b !in {0, 3} && next <= 4 && (next < 4 ==> !Marked(buffer, next))
    ensures b == 1 && next == 2 && LeftMarked(buffer, 0, next, 4, 4) == {3}
  {
    InOrder();
    hide OffsetOf, Marked;
    assert At(1, 4) == 1 && At(2, 4) == 2;
    assert b == 1 || b == 2;
    assert next == 2;
    assert Marked(buffer, 3) && !Marked(buffer, 2);
  }

  lemma InOrder()
    ensures forall b: nat {:trigger OffsetOf(0, b, 4)} :: b < 4 ==> OffsetOf(0, b, 4) == b
    ensures forall b: nat {:trigger At(b, 4)} :: b < 4 ==> At(b, 4) == b
  {
  }

  lemma NothingPassed(mark: nat, n: nat, claimed: set<nat>)
    requires n > 0
    ensures Passed(mark, mark, n, claimed)
  {
  }

  lemma AccurateIs(buffer: seq<bv8>, origin: nat, k: nat, size: nat, n: nat, claimed: set<nat>)
    requires Accurate(buffer, origin, k, size, n, claimed)
    ensures forall j: nat {:trigger Marked(buffer, j)} :: k <= j < size ==>
              (Marked(buffer, j) <==> At(origin + j, n) in claimed)
  {
  }

  lemma PassOne(buffer: seq<bv8>, origin: nat, k: nat, size: nat, n: nat, mark: nat, claimed: set<nat>)
    requires k < size && Passed(mark, origin + k, n, claimed) && At(origin + k, n) in claimed
    requires size <= 8 * |buffer| && size <= n
    requires forall j: nat {:trigger Marked(buffer, j)} :: k < j < size ==>
              (Marked(buffer, j) <==> At(origin + j, n) in claimed)
    ensures Accurate(buffer, origin, k + 1, size, n, claimed)
    ensures Passed(mark, origin + (k + 1), n, claimed)
  {
    hide At, Marked;
  }

  // No later block of the window is the one at offset k.
  lemma TakeOne(buffer: seq<bv8>, origin: nat, k: nat, size: nat, n: nat, mark: nat, claimed: set<nat>, b: nat)
    requires k < size && Accurate(buffer, origin, k, size, n, claimed) && Passed(mark, origin + k, n, claimed)
    requires b == At(origin + k, n) && !Marked(buffer, k)
    ensures b < n && b !in claimed
    ensures forall j: nat {:trigger Marked(buffer, j)} :: k < j < size ==>
              (Marked(buffer, j) <==> At(origin + j, n) in claimed + {b})
    ensures Passed(mark, origin + k, n, claimed + {b})
  {
    hide At, Marked;
    forall j: nat | k < j < size
      ensures Marked(buffer, j) <==> At(origin + j, n) in claimed + {b}
    {
      AtDistinct(origin + k, origin + j, n);
    }
  }

  lemma TakenWithin(taken: set<nat>, mark: nat, steps: nat, n: nat, b: nat)
    requires Within(taken, mark, steps, n) && steps < n && b == At(mark + steps, n)
    ensures Within(taken + {b}, mark, steps + 1, n)
  {
    hide At, OffsetOf;
    OffsetUnique(mark, steps, b, n);
  }

  // Walking around the whole device meets every block.
  lemma AllClaimed(mark: nat, n: nat, claimed: set<nat>)
    requires Passed(mark, mark + n, n, claimed)
    ensures forall b: nat {:trigger b in claimed} :: b < n ==> b in claimed
  {
    hide At, OffsetOf;
    forall b: nat | b < n
      ensures b in claimed
    {
      assert At(mark + OffsetOf(mark, b, n), n) == b;
    }
  }

  // The block at an offset of the window
  method Wrap(ghost origin: nat, start: nat, next: nat, n: nat) returns (b: nat)
    requires n > 0 && start == At(origin, n)
    ensures b == At(origin + next, n)
  {
    AtShift(origin, next, n);
    b := (start + next) % n;
  }

  lemma StillWithin(blocks: set<nat>, mark: nat, steps: int, steps': int, n: nat)
    requires Within(blocks, mark, steps, n) && steps <= steps'
    ensures Within(blocks, mark, steps', n)
  {
    hide OffsetOf;
  }

  method WindowOffset(ghost origin: nat, start: nat, b: nat, n: nat) returns (off: nat)
    requires n > 0 && start == At(origin, n) && b < n
    ensures off == OffsetOf(origin, b, n)
  {
    hide OffsetOf;
    OffsetOfIs(origin, b, n);
    off := (b - start + n) % n;
    OffsetUnique(origin, off, b, n);
  }

  lemma MarkedUpdate(was: seq<bv8>, off: nat, buffer: seq<bv8>)
    requires off < 8 * |was| && buffer == was[off / 8 := WithBit(was[off / 8], off % 8)]
    ensures forall j: nat {:trigger Marked(buffer, j)} :: j < 8 * |was| ==>
              (Marked(buffer, j) <==> Marked(was, j) || j == off)
  {
    hide Bit, WithBit;
  }

  ghost predicate MarksExactly(buffer: seq<bv8>, origin: nat, size: nat, n: nat, inUse: seq<nat>) {
    n > 0 && size <= 8 * |buffer| && size <= n &&
    forall j: nat {:trigger Marked(buffer, j)} :: j < size ==> (Marked(buffer, j) <==> At(origin + j, n) in inUse)
  }

  lemma MarksOneMore(was: seq<bv8>, buffer: seq<bv8>, origin: nat, size: nat, n: nat, inUse: seq<nat>, i: nat)
    requires i < |inUse| && inUse[i] < n && |buffer| == |was|
    requires MarksExactly(was, origin, size, n, inUse[..i])
    requires forall j: nat {:trigger Marked(buffer, j)} :: j < size ==>
               (Marked(buffer, j) <==> Marked(was, j) || j == OffsetOf(origin, inUse[i], n))
    ensures MarksExactly(buffer, origin, size, n, inUse[..i + 1])
  {
    hide At, Marked, OffsetOf;
    forall j: nat | j < size
      ensures Marked(buffer, j) <==> At(origin + j, n) in inUse[..i + 1]
    {
      assert inUse[..i + 1] == inUse[..i] + [inUse[i]];
      OffsetUnique(origin, j, At(origin + j, n), n);
    }
  }

  // What was taken or stale lies behind the new window.
  lemma ScanAccurate(buffer: seq<bv8>, origin: nat, size: nat, n: nat, inUse: seq<nat>, taken: set<nat>,
                     stale: set<nat>,
                     mark: nat, ckpoint: nat)
    requires MarksExactly(buffer, origin, size, n, inUse)
    requires size <= ckpoint <= n && origin - mark == n - ckpoint
    requires Within(taken, mark, origin - mark, n) && Within(stale, mark, origin - mark, n)
    ensures Accurate(buffer, origin, 0, size, n, Elements(inUse) + taken + stale)
  {
    hide At, Marked, OffsetOf;
    forall j: nat | 0 <= j < size
      ensures Marked(buffer, j) <==> At(origin + j, n) in Elements(inUse) + taken + stale
    {
      OffsetUnique(mark, origin + j - mark, At(origin + j, n), n);
    }
  }
}
